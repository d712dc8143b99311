// osc.lv2/osc.lv2/stream.h: the double-ended variant of SLIP (RFC 1055).

module Slip {
  import opened Bytes

  const END: byte := 0xC0
  const ESC: byte := 0xDB
  const END_REPLACE: byte := 0xDC
  const ESC_REPLACE: byte := 0xDD

  predicate Special(b: byte) {
    b == END || b == ESC
  }

  // ----- The format -----

  function EscapeByte(b: byte): (s: seq<byte>)
    ensures 1 <= |s| <= 2
  {
    if b == END then [ESC, END_REPLACE] else if b == ESC then [ESC, ESC_REPLACE] else [b]
  }

  function Escape(m: seq<byte>): seq<byte> {
    if m == [] then [] else EscapeByte(m[0]) + Escape(m[1..])
  }

  /** The frame of a packet. An empty packet is not sent. */
  function Encode(m: seq<byte>): seq<byte> {
    if m == [] then [] else [END] + Escape(m) + [END]
  }

  function CountSpecial(m: seq<byte>): nat {
    if m == [] then 0 else (if Special(m[0]) then 1 else 0) + CountSpecial(m[1..])
  }

  lemma {:induction false} EscapeConcat(a: seq<byte>, b: seq<byte>)
    ensures Escape(a + b) == Escape(a) + Escape(b)
  {
    if a == [] {
      assert a + b == b;
    } else {
      assert (a + b)[1..] == a[1..] + b;
      EscapeConcat(a[1..], b);
    }
  }

  lemma EscapeSnoc(m: seq<byte>, b: byte)
    ensures Escape(m + [b]) == Escape(m) + EscapeByte(b)
  {
    hide Escape, EscapeByte;
    EscapeConcat(m, [b]);
    EscapeOne(b);
  }

  lemma EscapeOne(b: byte)
    ensures Escape([b]) == EscapeByte(b)
  {
    assert [b][1..] == [];
  }

  lemma {:induction false} EscapeLength(m: seq<byte>)
    ensures |Escape(m)| == |m| + CountSpecial(m)
    ensures |m| <= |Escape(m)| <= 2 * |m|
  {
    if m != [] {
      EscapeLength(m[1..]);
    }
  }

  /** The two replacements of RFC 1055, and an END on either side of the packet. */
  lemma EscapesInBytes(b: byte)
    ensures Escape([0xC0]) == [0xDB, 0xDC] && Escape([0xDB]) == [0xDB, 0xDD]
    ensures b != 0xC0 && b != 0xDB ==> Escape([b]) == [b]
    ensures Encode([]) == []
    ensures forall m: seq<byte> :: m != [] ==> Encode(m) == [0xC0] + Escape(m) + [0xC0]
  {
    EscapeOne(0xC0);
    EscapeOne(0xDB);
    EscapeOne(b);
    hide Escape;
  }

  /** The buffer needs two more bytes than the packet, plus one for each special byte: at most 2n + 2. */
  lemma EncodedSize(m: seq<byte>)
    requires m != []
    ensures |Encode(m)| == |m| + 2 + CountSpecial(m) <= 2 * |m| + 2
  {
    EscapeLength(m);
  }

  /** The guard that an encoder with a buffer of cap bytes would need. */
  lemma EncodedFits(m: seq<byte>, cap: nat)
    requires m != []
    ensures |Encode(m)| <= cap <==> |m| + 2 + CountSpecial(m) <= cap
  {
    EncodedSize(m);
  }

  /**
   * Comparing the size of the packet alone, as the caller of the encoder does, lets through
   * packets that do not fit.
   */
  lemma SizeAloneIsNotEnough(m: seq<byte>, cap: nat)
    requires m != [] && cap < |m| + 2 && |m| <= cap
    ensures |Encode(m)| > cap
  {
    EncodedSize(m);
  }

  /** By its size alone a packet is known to fit exactly if twice that size and two more bytes fit. */
  lemma SizeThatAlwaysFits(n: nat, cap: nat)
    requires n > 0
    ensures (forall m: seq<byte> :: |m| == n ==> |Encode(m)| <= cap) <==> 2 * n + 2 <= cap
  {
    hide Encode;
    if 2 * n + 2 <= cap {
      forall m: seq<byte> | |m| == n
        ensures |Encode(m)| <= cap
      {
        EncodedSize(m);
      }
    } else {
      var m: seq<byte> := seq(n, _ => END);
      AllSpecial(m);
      EncodedSize(m);
    }
  }

  lemma {:induction false} AllSpecial(m: seq<byte>)
    requires forall i :: 0 <= i < |m| ==> m[i] == END
    ensures CountSpecial(m) == |m|
  {
    if m != [] {
      AllSpecial(m[1..]);
    }
  }

  lemma {:induction false} CountSpecialLast(m: seq<byte>)
    requires m != []
    ensures CountSpecial(m) == CountSpecial(m[..|m| - 1]) + (if Special(m[|m| - 1]) then 1 else 0)
  {
    if |m| > 1 {
      CountSpecialLast(m[1..]);
      assert m[1..][..|m| - 2] == m[..|m| - 1][1..];
    }
  }

  lemma {:induction false} NothingToEscape(m: seq<byte>)
    requires CountSpecial(m) == 0
    ensures Escape(m) == m
  {
    if m != [] {
      NothingToEscape(m[1..]);
    }
  }

  // ----- The encoder: backwards, in the buffer that it reads -----

  /** lv2_osc_slip_encode_inline on the first len bytes of dst. */
  method EncodeInline(dst: array<byte>, len: nat) returns (size: nat)
    requires len <= dst.Length && |Encode(dst[..len])| <= dst.Length
    modifies dst
    ensures size == |Encode(old(dst[..len]))| <= dst.Length
    ensures dst[..size] == Encode(old(dst[..len]))
    ensures len <= size && dst[size..] == old(dst[size..])
  {
    ghost var m := dst[..len];
    if len == 0 {
      return 0;
    }
    EncodedSize(m);
    size := CountEncoded(dst, len);
    if size == len + 2 {
      NothingToEscape(m);
      ShiftBetweenEnds(dst, len);
    } else {
      EscapeBackwards(dst, len, size);
    }
  }

  /** The case that nothing needs to be escaped. */
  method ShiftBetweenEnds(dst: array<byte>, len: nat)
    requires len + 2 <= dst.Length
    modifies dst
    ensures dst[..len + 2] == [END] + old(dst[..len]) + [END]
    ensures dst[len + 2..] == old(dst[len + 2..])
  {
    forall i | 0 <= i < len {
      dst[i + 1] := dst[i];
    }
    dst[0] := END;
    dst[len + 1] := END;
  }

  /** The first loop of the encoder: the size of the frame. */
  method CountEncoded(dst: array<byte>, len: nat) returns (size: nat)
    requires len <= dst.Length
    ensures size == len + 2 + CountSpecial(dst[..len])
  {
    size := 2;
    var from := 0;
    while from < len
      invariant 0 <= from <= len
      invariant size == from + 2 + CountSpecial(dst[..from])
    {
      CountSpecialLast(dst[..from + 1]);
      assert dst[..from + 1][..from] == dst[..from];
      if dst[from] == END || dst[from] == ESC {
        size := size + 1;
      }
      from := from + 1;
      size := size + 1;
    }
  }

  /**
   * Where the second loop is: the first n bytes are still unread, and the escape of the
   * others and the closing END stand from index to + 1 on.
   */
  ghost predicate Escaping(now: seq<byte>, m: seq<byte>, n: nat, to: int, size: nat) {
    && n <= |m| <= |now| && size <= |now| && -1 <= to < size
    && to == |Escape(m[..n])|
    && now[..n] == m[..n]
    && now[to + 1..size] == Escape(m[n..]) + [END]
  }

  /**
   * The second loop. The place to of the last byte to be written never falls behind the
   * last byte that is still unread.
   */
  method EscapeBackwards(dst: array<byte>, len: nat, size: nat)
    requires 0 < len <= dst.Length && size == |Encode(dst[..len])| <= dst.Length
    modifies dst
    ensures dst[..size] == Encode(old(dst[..len]))
    ensures dst[size..] == old(dst[size..])
  {
    hide Escape, EscapeByte, Encode, Escaping;
    ghost var m := dst[..len];
    FrameShape(m);
    var to := size - 1;
    dst[to] := END;
    to := to - 1;
    StartEscaping(dst[..], m, size);
    var from := len - 1;
    while from >= 0
      invariant -1 <= from < len
      invariant Escaping(dst[..], m, from + 1, to, size)
      invariant dst[size..] == old(dst[size..])
      decreases from
    {
      to := EscapeStep(dst, m, from, to, size);
      from := from - 1;
    }
    EndEscaping(dst[..], m, to, size);
    dst[to] := END;
    assert dst[..size] == [END] + old(dst[..])[..0] + dst[1..size];
  }

  /** One round of that loop. */
  method EscapeStep(dst: array<byte>, ghost m: seq<byte>, from: nat, to: int, size: nat) returns (to': int)
    requires from < dst.Length && Escaping(dst[..], m, from + 1, to, size)
    modifies dst
    ensures Escaping(dst[..], m, from, to', size)
    ensures dst[size..] == old(dst[size..])
  {
    hide Escape, EscapeByte, Escaping, Put;
    ghost var before := dst[..];
    NextToEscape(before, m, from, to, size);
    to' := PutEscaped(dst, to, dst[from]);
    StepEscaping(before, m, from, to, size);
  }

  lemma NextToEscape(now: seq<byte>, m: seq<byte>, from: nat, to: int, size: nat)
    requires Escaping(now, m, from + 1, to, size)
    ensures now[from] == m[from] && from + |EscapeByte(m[from])| - 1 <= to < |now|
  {
    hide Escape, EscapeByte;
    BackwardStep(m, from);
    assert now[from] == now[..from + 1][from];
  }

  lemma StepEscaping(now: seq<byte>, m: seq<byte>, from: nat, to: int, size: nat)
    requires Escaping(now, m, from + 1, to, size) && from + |EscapeByte(m[from])| - 1 <= to < |now|
    ensures var bs := EscapeByte(m[from]);
      var next := Put(now, to + 1 - |bs|, bs);
      Escaping(next, m, from, to - |bs|, size) && next[size..] == now[size..]
  {
    hide Escape, EscapeByte;
    BackwardStep(m, from);
    var bs, at := EscapeByte(m[from]), to + 1 - |EscapeByte(m[from])|;
    PutSlices(now, at, bs, from, size);
    SliceOfSlice(now, 0, from + 1, 0, from);
    SliceOfSlice(m, 0, from + 1, 0, from);
    assert bs + Escape(m[from + 1..]) + [END] == bs + (Escape(m[from + 1..]) + [END]);
  }

  lemma PutSlices(mem: seq<byte>, at: nat, bs: seq<byte>, low: nat, high: nat)
    requires low <= at && at + |bs| <= high <= |mem|
    ensures var next := Put(mem, at, bs);
      next[..low] == mem[..low] && next[at..high] == bs + mem[at + |bs|..high] && next[high..] == mem[high..]
  {
    hide Put;
  }

  lemma StartEscaping(now: seq<byte>, m: seq<byte>, size: nat)
    requires m != [] && m <= now && size == |Encode(m)| <= |now| && now[size - 1] == END
    ensures Escaping(now, m, |m|, size - 2, size)
  {
    EscapeLength(m);
    assert m[..|m|] == m && m[|m|..] == [];
  }

  lemma EndEscaping(now: seq<byte>, m: seq<byte>, to: int, size: nat)
    requires m != [] && Escaping(now, m, 0, to, size)
    ensures to == 0 && [END] + now[1..size] == Encode(m)
  {
    assert m[0..] == m && m[..0] == [];
  }

  lemma FrameShape(m: seq<byte>)
    requires m != []
    ensures Encode(m) == [END] + (Escape(m) + [END]) && |m| <= |Escape(m)|
    ensures Escape([]) == []
  {
    EscapeLength(m);
  }

  /** The body of that loop: the escape of one byte, ending at index to. */
  method PutEscaped(dst: array<byte>, to: nat, b: byte) returns (to': int)
    requires |EscapeByte(b)| - 1 <= to < dst.Length
    modifies dst
    ensures to' == to - |EscapeByte(b)|
    ensures dst[..] == Put(old(dst[..]), to + 1 - |EscapeByte(b)|, EscapeByte(b))
  {
    hide Put;
    to' := to;
    if b == END {
      dst[to'] := END_REPLACE;
      to' := to' - 1;
      dst[to'] := ESC;
      to' := to' - 1;
    } else if b == ESC {
      dst[to'] := ESC_REPLACE;
      to' := to' - 1;
      dst[to'] := ESC;
      to' := to' - 1;
    } else {
      dst[to'] := b;
      to' := to' - 1;
    }
  }

  lemma BackwardStep(m: seq<byte>, from: nat)
    requires from < |m|
    ensures Escape(m[..from + 1]) == Escape(m[..from]) + EscapeByte(m[from])
    ensures Escape(m[from..]) == EscapeByte(m[from]) + Escape(m[from + 1..])
    ensures from <= |Escape(m[..from])|
  {
    EscapeSnoc(m[..from], m[from]);
    assert m[..from + 1] == m[..from] + [m[from]];
    EscapeLength(m[..from]);
  }

  // ----- The decoder: shifts left, in the buffer that it reads -----

  /** What a pair of ESC and b stands for; other pairs are dropped. */
  function Unreplace(b: byte): (s: seq<byte>)
    ensures |s| <= 1
  {
    if b == END_REPLACE then [END] else if b == ESC_REPLACE then [ESC] else []
  }

  /** The bytes decoded up to the first END, how far that is, and whether there was an END. */
  datatype Scan = Scan(out: seq<byte>, used: nat, ended: bool)

  function ScanBody(s: seq<byte>): (r: Scan)
    ensures |r.out| <= r.used <= |s| && (r.ended ==> |r.out| < r.used)
  {
    if s == [] then Scan([], 0, false)
    else if s[0] == END then Scan([], 1, true)
    else if s[0] == ESC then
      if |s| == 1 then Scan([], 0, false)
      else
        var r := ScanBody(s[2..]);
        Scan(Unreplace(s[1]) + r.out, 2 + r.used, r.ended)
    else
      var r := ScanBody(s[1..]);
      Scan([s[0]] + r.out, 1 + r.used, r.ended)
  }

  /**
   * out: the bytes that the decoder leaves at the front of its buffer;
   * size: the length of the packet, 0 if there is none; parsed: how many bytes it has done with.
   */
  datatype Decoded = Decoded(out: seq<byte>, size: nat, parsed: nat)

  predicate Whole(s: seq<byte>) {
    s != [] && s[0] == END
  }

  function Body(s: seq<byte>): seq<byte> {
    if Whole(s) then s[1..] else s
  }

  function Decode(s: seq<byte>): (d: Decoded)
    ensures |d.out| <= |s| && d.parsed <= |s| && (d.size > 0 ==> d.parsed > 0 && |d.out| == d.size)
  {
    var r := ScanBody(Body(s));
    if !r.ended then Decoded(r.out, 0, 0)
    else Decoded(r.out, if Whole(s) then |r.out| else 0, (if Whole(s) then 1 else 0) + r.used)
  }

  /** The buffer s after the decoder has run on it. */
  function Rewritten(s: seq<byte>): (s': seq<byte>)
    ensures |s'| == |s|
  {
    Decode(s).out + s[|Decode(s).out|..]
  }

  /** Where the decoder's loop is: src is the next byte to read, ptr the next one to write. */
  ghost predicate Decoding(now: seq<byte>, was: seq<byte>, dst: nat, start: nat, end: nat, src: nat, ptr: nat) {
    && dst <= ptr <= src <= end <= |now| == |was| && start <= src
    && now[..dst] == was[..dst] && now[ptr..] == was[ptr..]
    && var whole, rest := ScanBody(was[start..end]), ScanBody(was[src..end]);
    && whole.out == now[dst..ptr] + rest.out
    && whole.used == src - start + rest.used
    && whole.ended == rest.ended
  }

  /** lv2_osc_slip_decode_inline on the len bytes of buf from dst on. */
  method DecodeInline(buf: array<byte>, dst: nat, len: nat) returns (parsed: nat, size: nat)
    requires dst + len <= buf.Length
    modifies buf
    ensures var d := Decode(old(buf[dst..dst + len]));
      parsed == d.parsed && size == d.size
    ensures buf[..] == old(buf[..dst] + Rewritten(buf[dst..dst + len]) + buf[dst + len..])
  {
    hide ScanBody, Decoding, Decode, Rewritten;
    ghost var was := buf[..];
    var src, end, ptr := dst, dst + len, dst;
    var whole := false;
    if src < end && buf[src] == END {
      whole := true;
      src := src + 1;
    }
    ghost var start := src;
    StartDecoding(was, dst, start, end);
    while src < end
      invariant start <= src <= end && dst <= ptr <= src
      invariant Decoding(buf[..], was, dst, start, end, src, ptr)
    {
      if buf[src] == ESC && src == end - 1 {
        break;
      } else if buf[src] == END {
        EndDecoding(buf[..], was, dst, start, end, src, ptr);
        src := src + 1;
        size := if whole then ptr - dst else 0;
        return src - dst, size;
      }
      src, ptr := DecodeStep(buf, was, dst, start, end, src, ptr);
    }
    StopDecoding(buf[..], was, dst, start, end, src, ptr);
    return 0, 0;
  }

  /** One round of that loop, at a byte that is not END. */
  method DecodeStep(buf: array<byte>, ghost was: seq<byte>, ghost dst: nat, ghost start: nat, ghost end: nat,
                    src: nat, ptr: nat) returns (src': nat, ptr': nat)
    requires Decoding(buf[..], was, dst, start, end, src, ptr)
    requires src < end && buf[src] != END && (buf[src] == ESC ==> src + 1 < end)
    modifies buf
    ensures start <= src' <= end && dst <= ptr' <= src' && src < src'
    ensures Decoding(buf[..], was, dst, start, end, src', ptr')
  {
    hide ScanBody, Decoding, Put, Front;
    ghost var now := buf[..];
    NextToDecode(now, was, dst, start, end, src, ptr);
    FrontOfBytes(was[src..end]);
    src', ptr' := DecodeFront(buf, src, ptr);
    StepDecoding(now, was, dst, start, end, src, ptr);
  }

  /** The body of that loop. */
  method DecodeFront(buf: array<byte>, src: nat, ptr: nat) returns (src': nat, ptr': nat)
    requires ptr <= src < buf.Length && (buf[src] == ESC ==> src + 1 < buf.Length)
    modifies buf
    ensures var out := old(if buf[src] == ESC then Unreplace(buf[src + 1]) else [buf[src]]);
      && src' == src + (if old(buf[src]) == ESC then 2 else 1) && ptr' == ptr + |out|
      && buf[..] == Put(old(buf[..]), ptr, out)
  {
    hide Put;
    src', ptr' := src, ptr;
    if buf[src'] == ESC {
      src' := src' + 1;
      if buf[src'] == END_REPLACE {
        buf[ptr'] := END;
        ptr' := ptr' + 1;
      } else if buf[src'] == ESC_REPLACE {
        buf[ptr'] := ESC;
        ptr' := ptr' + 1;
      }
      src' := src' + 1;
    } else {
      buf[ptr'] := buf[src'];
      ptr' := ptr' + 1;
      src' := src' + 1;
    }
  }

  lemma FrontOfBytes(s: seq<byte>)
    requires s != [] && (s[0] == ESC ==> |s| > 1)
    ensures Front(s) == if s[0] == ESC then Unreplace(s[1]) else [s[0]]
  {}

  /** What the first byte, or the first pair, of s decodes to, and how long it is. */
  function Front(s: seq<byte>): (out: seq<byte>)
    requires s != [] && (s[0] == ESC ==> |s| > 1)
    ensures |out| <= 1
  {
    if s[0] == ESC then Unreplace(s[1]) else [s[0]]
  }

  function FrontLength(s: seq<byte>): nat
    requires s != []
  {
    if s[0] == ESC then 2 else 1
  }

  lemma NextToDecode(now: seq<byte>, was: seq<byte>, dst: nat, start: nat, end: nat, src: nat, ptr: nat)
    requires Decoding(now, was, dst, start, end, src, ptr) && src < end
    ensures dst <= ptr <= src && start <= src && end <= |now| == |was|
    ensures now[src] == was[src] == was[src..end][0]
    ensures src + 1 < end ==> now[src + 1] == was[src + 1] == was[src..end][1]
  {
    Unread(now, was, ptr, src, end);
  }

  lemma StepDecoding(now: seq<byte>, was: seq<byte>, dst: nat, start: nat, end: nat, src: nat, ptr: nat)
    requires Decoding(now, was, dst, start, end, src, ptr)
    requires src < end && was[src] != END && (was[src] == ESC ==> src + 1 < end)
    ensures var s := was[src..end];
      && ptr + |Front(s)| <= |now|
      && Decoding(Put(now, ptr, Front(s)), was, dst, start, end, src + FrontLength(s), ptr + |Front(s)|)
  {
    hide ScanBody, Front;
    var s := was[src..end];
    var front, n := Front(s), FrontLength(s);
    var next := Put(now, ptr, front);
    UnfoldScan(s);
    assert s[n..] == was[src + n..end];
    assert next[dst..ptr + |front|] == now[dst..ptr] + front;
    assert next[ptr + |front|..] == now[ptr..][|front|..] == was[ptr..][|front|..] == was[ptr + |front|..];
    assert next[..dst] == now[..dst];
  }

  lemma Unread(now: seq<byte>, was: seq<byte>, ptr: nat, src: nat, end: nat)
    requires ptr <= src < end <= |now| == |was| && now[ptr..] == was[ptr..]
    ensures now[src] == was[src] == was[src..end][0]
    ensures src + 1 < end ==> now[src + 1] == was[src + 1] == was[src..end][1]
  {
    assert now[ptr..][src - ptr] == was[ptr..][src - ptr];
    if src + 1 < end {
      assert now[ptr..][src + 1 - ptr] == was[ptr..][src + 1 - ptr];
    }
  }

  lemma UnfoldScan(s: seq<byte>)
    requires s != [] && s[0] != END && (s[0] == ESC ==> |s| > 1)
    ensures var n := FrontLength(s);
      var r := ScanBody(s[n..]);
      ScanBody(s) == Scan(Front(s) + r.out, n + r.used, r.ended)
  {}

  /** Pairs that no encoder writes are dropped, and a lone escape byte at the end waits for its partner. */
  lemma UnknownPairs(b: byte, t: seq<byte>)
    requires b != 0xDC && b != 0xDD
    ensures ScanBody([0xDB, b] + t) == ScanBody(t).(used := 2 + ScanBody(t).used)
    ensures ScanBody([0xDB]) == Scan([], 0, false)
  {
    var s := [ESC, b] + t;
    assert s[2..] == t;
    UnfoldScan(s);
  }

  lemma StartDecoding(was: seq<byte>, dst: nat, start: nat, end: nat)
    requires dst <= start <= end <= |was|
    ensures Decoding(was, was, dst, start, end, start, dst)
  {}

  ghost predicate Started(was: seq<byte>, dst: nat, start: nat, end: nat) {
    dst <= end <= |was| && start == if dst < end && was[dst] == END then dst + 1 else dst
  }

  lemma EndDecoding(now: seq<byte>, was: seq<byte>, dst: nat, start: nat, end: nat, src: nat, ptr: nat)
    requires Decoding(now, was, dst, start, end, src, ptr) && src < end && now[src] == END
    requires Started(was, dst, start, end)
    ensures var s := was[dst..end];
      && Decode(s) == Decoded(now[dst..ptr], if start > dst then ptr - dst else 0, src + 1 - dst)
      && now == was[..dst] + Rewritten(s) + was[end..]
  {
    hide ScanBody, Decoding, Body, Whole;
    NextToDecode(now, was, dst, start, end, src, ptr);
    ScanStops(was[src..end]);
    DecodedSoFar(now, was, dst, start, end, src, ptr);
    BodyIs(was, dst, start, end);
  }

  lemma StopDecoding(now: seq<byte>, was: seq<byte>, dst: nat, start: nat, end: nat, src: nat, ptr: nat)
    requires Decoding(now, was, dst, start, end, src, ptr)
    requires src == end || (src == end - 1 && now[src] == ESC)
    requires Started(was, dst, start, end)
    ensures var s := was[dst..end];
      && Decode(s) == Decoded(now[dst..ptr], 0, 0)
      && now == was[..dst] + Rewritten(s) + was[end..]
  {
    hide ScanBody, Decoding, Body, Whole;
    if src < end {
      NextToDecode(now, was, dst, start, end, src, ptr);
    }
    DecodingBounds(now, was, dst, start, end, src, ptr);
    ScanStops(was[src..end]);
    DecodedSoFar(now, was, dst, start, end, src, ptr);
    BodyIs(was, dst, start, end);
  }

  lemma DecodingBounds(now: seq<byte>, was: seq<byte>, dst: nat, start: nat, end: nat, src: nat, ptr: nat)
    requires Decoding(now, was, dst, start, end, src, ptr)
    ensures dst <= ptr <= src <= end <= |now| == |was| && start <= src
  {}

  /** When nothing more comes out of the rest. */
  lemma DecodedSoFar(now: seq<byte>, was: seq<byte>, dst: nat, start: nat, end: nat, src: nat, ptr: nat)
    requires Decoding(now, was, dst, start, end, src, ptr) && ScanBody(was[src..end]).out == []
    ensures var rest := ScanBody(was[src..end]);
      ScanBody(was[start..end]) == Scan(now[dst..ptr], src - start + rest.used, rest.ended)
    ensures now == was[..dst] + (now[dst..ptr] + was[dst..end][ptr - dst..]) + was[end..]
  {
    hide ScanBody;
    assert now[dst..ptr] + [] == now[dst..ptr];
    FinalBuffer(now, was, dst, end, ptr);
  }

  lemma ScanStops(s: seq<byte>)
    ensures s == [] || (|s| == 1 && s[0] == ESC) ==> ScanBody(s) == Scan([], 0, false)
    ensures s != [] && s[0] == END ==> ScanBody(s) == Scan([], 1, true)
  {}

  lemma BodyIs(was: seq<byte>, dst: nat, start: nat, end: nat)
    requires Started(was, dst, start, end)
    ensures Body(was[dst..end]) == was[start..end] && Whole(was[dst..end]) == (start > dst)
  {}

  lemma FinalBuffer(now: seq<byte>, was: seq<byte>, dst: nat, end: nat, ptr: nat)
    requires dst <= ptr <= end <= |now| == |was|
    requires now[..dst] == was[..dst] && now[ptr..] == was[ptr..]
    ensures now == was[..dst] + (now[dst..ptr] + was[dst..end][ptr - dst..]) + was[end..]
  {
    assert now == now[..dst] + now[dst..ptr] + now[ptr..];
  }
}
