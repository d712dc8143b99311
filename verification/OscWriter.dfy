// osc.lv2/osc.lv2/writer.h: encoding into a buffer of limited capacity.

module OscWriter {
  import opened Bytes
  import opened Osc

  /** Only the bytes from index from up to index to may differ. */
  ghost predicate Within(was: seq<byte>, now: seq<byte>, from: nat, to: nat) {
    from <= to <= |was| == |now| && now[..from] == was[..from] && now[to..] == was[to..]
  }

  /** No byte outside of the range has changed. */
  lemma WithinMeans(was: seq<byte>, now: seq<byte>, from: nat, to: nat)
    requires Within(was, now, from, to)
    ensures |now| == |was| && from <= to <= |was|
    ensures forall i :: 0 <= i < |was| && (i < from || to <= i) ==> now[i] == was[i]
  {
    forall i | 0 <= i < |was| && (i < from || to <= i)
      ensures now[i] == was[i]
    {
      if i < from {
        assert now[i] == now[..from][i];
      } else {
        assert now[i] == now[to..][i - to];
      }
    }
  }

  lemma WithinTrans(a: seq<byte>, b: seq<byte>, c: seq<byte>, from: nat, mid: nat, to: nat)
    requires Within(a, b, from, to) && Within(b, c, mid, to) && from <= mid <= to
    ensures Within(a, c, from, to) && c[from..mid] == b[from..mid]
  {
    assert c[..mid] == b[..mid];
    assert c[..from] == c[..mid][..from];
    assert c[from..mid] == c[..mid][from..];
  }

  /** The items of an argument that the writer refuses whatever the capacity. */
  predicate Encodable(arg: Arg) {
    arg.Midi? ==> |arg.m| <= 4
  }

  /** Long MIDI events are the only arguments that are refused whatever the room. */
  lemma EncodableMeans(arg: Arg)
    ensures Encodable(arg) <==> match arg { case Midi(m) => |m| <= 4 case _ => true }
  {}

  predicate AllEncodable(args: seq<Arg>) {
    forall i :: 0 <= i < |args| ==> Encodable(args[i])
  }

  /** There is room for n bytes at ptr: the last byte of the buffer is never used. Zero bytes always fit. */
  predicate Room(ptr: nat, n: nat, end: nat) {
    n == 0 || ptr + n < end
  }

  const ZEROES: seq<byte> := [0, 0, 0, 0]

  /** A blank last word, and then the string with its terminating zero, is the padded string. */
  lemma TextStored(was: seq<byte>, start: nat, s: seq<byte>)
    requires start + TextSize(s) <= |was|
    ensures var end := start + TextSize(s);
      var now := Put(Put(was, end - 4, ZEROES), start, s + [0]);
      Within(was, now, start, end) && now[start..end] == TextBytes(s)
  {
    hide Put, Padded;
    var t, end := TextBytes(s), start + TextSize(s);
    var now := Put(Put(was, end - 4, ZEROES), start, s + [0]);
    assert forall i :: 0 <= i < |s| ==> t[i] == t[..|s|][i] == now[start + i];
    assert forall i :: |s| <= i < |t| ==> t[i] == 0 == now[start + i];
    assert now[start..end] == t;
  }

  lemma FormatStored(was: seq<byte>, start: nat, fmt: seq<byte>)
    requires start + TextSize([COMMA] + fmt) <= |was|
    ensures var end := start + TextSize([COMMA] + fmt);
      var now := Put(Put(Put(was, end - 4, ZEROES), start, [COMMA]), start + 1, fmt + [0]);
      Within(was, now, start, end) && now[start..end] == TextBytes([COMMA] + fmt)
  {
    hide Put, Padded, TextBytes, Within;
    var blank := Put(was, start + TextSize([COMMA] + fmt) - 4, ZEROES);
    TextStored(was, start, [COMMA] + fmt);
    assert Put(Put(blank, start, [COMMA]), start + 1, fmt + [0]) == Put(blank, start, [COMMA] + fmt + [0]);
  }

  lemma BlobStored(was: seq<byte>, mid: seq<byte>, now: seq<byte>, start: nat, data: seq<byte>)
    requires |data| < 0x8000_0000 && start + 4 + Padded(|data|) <= |was|
    requires Within(was, mid, start, start + 4) && mid[start..start + 4] == Be32(|data|)
    requires now == Put(mid, start + 4, data)
    ensures var end := start + 4 + Padded(|data|);
      && Within(was, now, start, end) && IsArg(now[start..end], Blob(data))
      && now[start + 4 + |data|..end] == was[start + 4 + |data|..end]
  {
    hide Be32, Padded, Put;
    var body, end := start + 4, start + 4 + Padded(|data|);
    SliceOfSlice(now, start, end, 0, 4);
    SliceOfSlice(now, start, end, 4, 4 + |data|);
    PutAround(mid, body, data);
    SliceOfSlice(mid, 0, body, start, body);
    SliceOfSlice(now, 0, body, start, body);
    assert now[..start] == now[..body][..start] == mid[..body][..start] == mid[..start];
    Rest(now, mid, body + |data|, end);
    Rest(mid, was, body, body + |data|);
    Rest(mid, was, body + |data|, end);
  }

  lemma PutAround(mem: seq<byte>, at: nat, bs: seq<byte>)
    requires at + |bs| <= |mem|
    ensures var now := Put(mem, at, bs);
      now[..at] == mem[..at] && now[at..at + |bs|] == bs && now[at + |bs|..] == mem[at + |bs|..]
  {
    hide Put;
  }

  /** Equal tails have equal parts. */
  lemma Rest(a: seq<byte>, b: seq<byte>, from: nat, to: nat)
    requires |a| == |b| && from <= to <= |a| && a[from..] == b[from..]
    ensures a[from..to] == b[from..to] && a[to..] == b[to..]
  {
    assert a[from..to] == a[from..][..to - from] && b[from..to] == b[from..][..to - from];
    assert a[to..] == a[from..][to - from..] && b[to..] == b[from..][to - from..];
  }

  /** LV2_OSC_Writer */
  class Writer {
    const buf: array<byte>
    const end: nat
    var ptr: nat

    ghost predicate Valid()
      reads this
    {
      ptr <= end <= buf.Length && end < 0x8000_0000
    }

    constructor (buf: array<byte>, size: nat)
      requires size <= buf.Length && size < 0x8000_0000
      ensures Valid() && this.buf == buf && end == size && ptr == 0
    {
      this.buf := buf;
      end := size;
      ptr := 0;
    }

    predicate Overflow(size: nat)
      reads this
    {
      ptr + size >= end
    }

    /** Copies bytes to ptr and advances: what all add functions do once they have checked the room. */
    method Append(bs: seq<byte>)
      requires Valid() && ptr + |bs| <= end
      modifies this`ptr, buf
      ensures Valid() && ptr == old(ptr) + |bs|
      ensures Within(old(buf[..]), buf[..], old(ptr), ptr) && buf[old(ptr)..ptr] == bs
    {
      forall i | 0 <= i < |bs| {
        buf[ptr + i] := bs[i];
      }
      ptr := ptr + |bs|;
    }

    method HtoBe32(w: word32) returns (ok: bool)
      requires Valid()
      modifies this`ptr, buf
      ensures Valid() && ok == Room(old(ptr), 4, end)
      ensures ptr == if ok then old(ptr) + 4 else old(ptr)
      ensures Within(old(buf[..]), buf[..], old(ptr), ptr) && (ok ==> buf[old(ptr)..ptr] == Be32(w))
    {
      if Overflow(4) {
        return false;
      }
      Append(Be32(w));
      return true;
    }

    method HtoBe64(v: word64) returns (ok: bool)
      requires Valid()
      modifies this`ptr, buf
      ensures Valid() && ok == Room(old(ptr), 8, end)
      ensures ptr == if ok then old(ptr) + 8 else old(ptr)
      ensures Within(old(buf[..]), buf[..], old(ptr), ptr) && (ok ==> buf[old(ptr)..ptr] == Be64(v))
    {
      if Overflow(8) {
        return false;
      }
      Append(Be64(v));
      return true;
    }

    /** lv2_osc_writer_add_string; add_format does the same with a comma in front. */
    method AddString(s: seq<byte>) returns (ok: bool)
      requires Valid() && NulFree(s)
      modifies this`ptr, buf
      ensures Valid() && ok == Room(old(ptr), TextSize(s), end)
      ensures ptr == if ok then old(ptr) + TextSize(s) else old(ptr)
      ensures Within(old(buf[..]), buf[..], old(ptr), ptr) && (ok ==> buf[old(ptr)..ptr] == TextBytes(s))
    {
      hide TextBytes, Padded, Put;
      var rawlen := |s| + 1;
      var padded := Padded(rawlen);
      if Overflow(padded) {
        return false;
      }
      TextStored(buf[..], ptr, s);
      Store(ptr + padded - 4, ZEROES);
      Store(ptr, s + [0]);
      ptr := ptr + padded;
      return true;
    }

    /** strncpy and stores of words */
    method Store(at: nat, bs: seq<byte>)
      requires at + |bs| <= buf.Length
      modifies buf
      ensures buf[..] == Put(old(buf[..]), at, bs)
    {
      forall i | 0 <= i < |bs| {
        buf[at + i] := bs[i];
      }
    }

    /** The padding behind the blob keeps what the buffer held before. */
    method AddBlob(data: seq<byte>) returns (ok: bool)
      requires Valid() && |data| < 0x8000_0000
      modifies this`ptr, buf
      ensures Valid() && ok == Room(old(ptr), ArgSize(Blob(data)), end)
      ensures ptr == if ok then old(ptr) + ArgSize(Blob(data)) else old(ptr)
      ensures Within(old(buf[..]), buf[..], old(ptr), ptr) && (ok ==> IsArg(buf[old(ptr)..ptr], Blob(data)))
      ensures ok ==> buf[old(ptr) + 4 + |data|..ptr] == old(buf[..])[old(ptr) + 4 + |data|..ptr]
    {
      hide IsArg, Be32, Padded;
      var lenPadded := Padded(|data|);
      var size := 4 + lenPadded;
      if Overflow(size) {
        return false;
      }
      ghost var was, start := buf[..], ptr;
      var written := HtoBe32(|data|);
      ghost var mid := buf[..];
      forall i | 0 <= i < |data| {
        buf[ptr + i] := data[i];
      }
      ptr := ptr + lenPadded;
      BlobStored(was, mid, buf[..], start, data);
      return true;
    }

    method AddMidi(m: seq<byte>) returns (ok: bool)
      requires Valid()
      modifies this`ptr, buf
      ensures Valid() && ok == (|m| <= 4 && Room(old(ptr), 4, end))
      ensures ptr == if ok then old(ptr) + 4 else old(ptr)
      ensures Within(old(buf[..]), buf[..], old(ptr), ptr) && (ok ==> IsArg(buf[old(ptr)..ptr], Midi(m)))
    {
      if |m| > 4 || Overflow(4) {
        return false;
      }
      ghost var start := ptr;
      forall i | 0 <= i < |m| {
        buf[ptr + i] := m[i];
      }
      ptr := ptr + 4;
      assert buf[start..ptr][..|m|] == m;
      return true;
    }

    method AddRgba(r: byte, g: byte, b: byte, a: byte) returns (ok: bool)
      requires Valid()
      modifies this`ptr, buf
      ensures Valid() && ok == Room(old(ptr), 4, end)
      ensures ptr == if ok then old(ptr) + 4 else old(ptr)
      ensures Within(old(buf[..]), buf[..], old(ptr), ptr) && (ok ==> buf[old(ptr)..ptr] == [r, g, b, a])
    {
      if Overflow(4) {
        return false;
      }
      Append([r, g, b, a]);
      return true;
    }

    /** One round of lv2_osc_writer_arg_varlist. */
    method AddArg(arg: Arg) returns (ok: bool)
      requires Valid() && WellTyped(arg)
      modifies this`ptr, buf
      ensures Valid() && ok == (Encodable(arg) && Room(old(ptr), ArgSize(arg), end))
      ensures ptr == if ok then old(ptr) + ArgSize(arg) else old(ptr)
      ensures Within(old(buf[..]), buf[..], old(ptr), ptr) && (ok ==> IsArg(buf[old(ptr)..ptr], arg))
    {
      match arg {
        case Number32(_, w) => ok := HtoBe32(w);
        case Number64(_, v) => ok := HtoBe64(v);
        case Text(_, s) => ok := AddString(s);
        case Blob(data) => ok := AddBlob(data);
        case Midi(m) => ok := AddMidi(m);
        case Char(c) => ok := HtoBe32(CharWord(c));
        case Rgba(r, g, b, a) => ok := AddRgba(r, g, b, a);
        case Flag(_) => ok := true;
      }
    }

    /** lv2_osc_writer_add_format */
    method AddFormat(fmt: seq<byte>) returns (ok: bool)
      requires Valid() && NulFree(fmt)
      modifies this`ptr, buf
      ensures Valid() && ok == Room(old(ptr), TextSize([COMMA] + fmt), end)
      ensures ptr == if ok then old(ptr) + TextSize([COMMA] + fmt) else old(ptr)
      ensures Within(old(buf[..]), buf[..], old(ptr), ptr) && (ok ==> buf[old(ptr)..ptr] == TextBytes([COMMA] + fmt))
    {
      hide TextBytes, Padded, NulFree, Put;
      var rawlen := |fmt| + 1;
      var padded := Padded(rawlen + 1);
      if Overflow(padded) {
        return false;
      }
      FormatStored(buf[..], ptr, fmt);
      Store(ptr + padded - 4, ZEROES);
      Store(ptr, [COMMA]);
      ptr := ptr + 1;
      Store(ptr, fmt + [0]);
      ptr := ptr + (padded - 1);
      return true;
    }

    /** lv2_osc_writer_arg_varlist; the variable arguments are a list. */
    method ArgVarlist(args: seq<Arg>) returns (ok: bool)
      requires Valid() && AllWellTyped(args)
      modifies this`ptr, buf
      ensures Valid() && old(ptr) <= ptr
      ensures ok == (AllEncodable(args) && Room(old(ptr), ArgsSize(args), end))
      ensures Within(old(buf[..]), buf[..], old(ptr), ptr)
      ensures ok ==> IsArgs(buf[old(ptr)..ptr], args)
    {
      hide IsArg, ArgSize, IsArgs, ArgsSize, WellTyped, Encodable;
      ghost var was, start := buf[..], ptr;
      NoArgs();
      assert args[..0] == [] && buf[start..ptr] == [];
      for i := 0 to |args|
        invariant Valid() && start <= ptr && AllEncodable(args[..i])
        invariant Within(was, buf[..], start, ptr) && IsArgs(buf[start..ptr], args[..i])
        invariant ptr == start + ArgsSize(args[..i]) && Room(start, ArgsSize(args[..i]), end)
      {
        ghost var mid, at := buf[..], ptr;
        ok := AddArg(args[i]);
        WithinTrans(was, mid, buf[..], start, at, ptr);
        MoreArgs(args, i);
        if !ok {
          return;
        }
        IsArgsAppend(mid[start..at], args[..i], buf[at..ptr], args[i]);
        assert buf[start..ptr] == mid[start..at] + buf[at..ptr];
        assert args[..i + 1] == args[..i] + [args[i]];
      }
      assert args[..|args|] == args;
      return true;
    }

    /** lv2_osc_writer_message_varlist: it succeeds exactly if the message is shorter than the room that is left. */
    method MessageVarlist(path: seq<byte>, args: seq<Arg>) returns (ok: bool)
      requires Valid() && NulFree(path) && AllWellTyped(args)
      modifies this`ptr, buf
      ensures Valid() && old(ptr) <= ptr
      ensures ok <==> AllEncodable(args) && old(ptr) + MessageSize(path, args) < end
      ensures ok ==> ptr == old(ptr) + MessageSize(path, args)
      ensures ok ==> IsMessage(buf[old(ptr)..ptr], path, args)
      ensures Within(old(buf[..]), buf[..], old(ptr), ptr)
    {
      hide IsArgs, ArgsSize, WellTyped, Encodable, TextBytes, TextSize, Letters, Format, AllEncodable, NulFree,
           IsMessage;
      LettersNulFree(args);
      ghost var was, start := buf[..], ptr;
      ok := AddString(path);
      if !ok {
        return;
      }
      ghost var mid1, at1 := buf[..], ptr;
      ok := AddFormat(Letters(args));
      WithinTrans(was, mid1, buf[..], start, at1, ptr);
      if !ok {
        return;
      }
      ghost var mid2, at2 := buf[..], ptr;
      ok := ArgVarlist(args);
      WithinTrans(was, mid2, buf[..], start, at2, ptr);
      if ok {
        MessageJoin(mid1, mid2, buf[..], start, at1, at2, ptr, path, args);
      }
    }
  }

  lemma MessageJoin(mid1: seq<byte>, mid2: seq<byte>, now: seq<byte>, start: nat, at1: nat, at2: nat, end: nat,
                    path: seq<byte>, args: seq<Arg>)
    requires at1 == start + TextSize(path) && at2 == at1 + TextSize(Format(args))
    requires at2 <= end <= |now| == |mid1| == |mid2|
    requires mid1[start..at1] == TextBytes(path) && mid2[start..at1] == mid1[start..at1]
    requires mid2[at1..at2] == TextBytes(Format(args)) && now[start..at2] == mid2[start..at2]
    requires IsArgs(now[at2..end], args)
    ensures IsMessage(now[start..end], path, args) && end - start == MessageSize(path, args)
  {
    hide IsArgs, ArgsSize, TextBytes, TextSize, Format;
    SliceOfSlice(now, start, end, 0, at1 - start);
    SliceOfSlice(now, start, end, at1 - start, at2 - start);
    SliceOfSlice(now, start, end, at2 - start, end - start);
    SliceOfSlice(now, start, at2, 0, at1 - start);
    SliceOfSlice(now, start, at2, at1 - start, at2 - start);
    SliceOfSlice(mid2, start, at2, 0, at1 - start);
    SliceOfSlice(mid2, start, at2, at1 - start, at2 - start);
    MessagesHaveTheirSize(now[start..end], path, args);
  }

  lemma NoArgs()
    ensures IsArgs([], []) && ArgsSize([]) == 0
  {}

  lemma LettersNulFree(args: seq<Arg>)
    requires AllWellTyped(args)
    ensures NulFree(Letters(args)) && Format(args) == [COMMA] + Letters(args)
    ensures TextSize(Format(args)) > 0 && forall path :: TextSize(path) > 0
  {}

  /** The arguments up to number i are encodable and have room only if those before it do, and it does too. */
  lemma MoreArgs(args: seq<Arg>, i: nat)
    requires i < |args|
    ensures ArgsSize(args[..i + 1]) == ArgsSize(args[..i]) + ArgSize(args[i])
    ensures ArgsSize(args) >= ArgsSize(args[..i + 1]) && (AllEncodable(args) ==> Encodable(args[i]))
    ensures AllEncodable(args[..i]) && Encodable(args[i]) ==> AllEncodable(args[..i + 1])
  {
    hide ArgSize, ArgsSize, Encodable;
    ArgsSizeConcat(args[..i + 1], args[i + 1..]);
    ArgsSizeConcat(args[..i], [args[i]]);
    assert args == args[..i + 1] + args[i + 1..] && args[..i + 1] == args[..i] + [args[i]];
    SizeOfOne(args[i]);
  }

  lemma SizeOfOne(arg: Arg)
    ensures ArgsSize([arg]) == ArgSize(arg)
  {
    assert [arg][1..] == [];
  }

  lemma {:induction false} ArgsSizeConcat(a: seq<Arg>, b: seq<Arg>)
    ensures ArgsSize(a + b) == ArgsSize(a) + ArgsSize(b)
  {
    if a == [] {
      assert a + b == b;
    } else {
      assert (a + b)[1..] == a[1..] + b;
      ArgsSizeConcat(a[1..], b);
    }
  }
}
