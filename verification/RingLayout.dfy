// varchunk/varchunk.h: the memory layout of the ring and its elementary operations.
//
// The ring is a buffer whose size is a power of two, with two indexes. The unread
// elements fill the circular interval from tail to head. Every element starts with
// an eight byte header (size, gap) at a multiple of eight and does not wrap around
// the end of the buffer; a gap element pads the end of the buffer.

module RingLayout {
  import opened Bits
  import opened Bytes

  /** sizeof(varchunk_elmnt_t) */
  const HEADER: nat := 8

  /** VARCHUNK_PAD: the mask ~7U is a 32 bit word, so the upper half of the size is lost. */
  function Pad(size: nat): nat {
    (size + 7) % 0x1_0000_0000 / 8 * 8
  }

  /** Where index x is after masking, for x below twice the size. */
  function Wrap(x: nat, size: nat): nat {
    if x >= size then x - size else x
  }

  /** Number of bytes from index a forward to index b. */
  function Dist(a: nat, b: nat, size: nat): nat
    requires a < size && b < size
  {
    if b >= a then b - a else b - a + size
  }

  ghost predicate IsPow2(n: nat) {
    exists k: nat :: n == Pow2(k)
  }

  lemma Pow2Alignment(k: nat)
    ensures Pow2(k) % 8 == 0 || Pow2(k) < 8
  {
    hide Pow2;
    SmallPow2(k);
    if k >= 3 {
      var p := Pow2(k - 3);
      assert 8 * p % 8 == 0;
    }
  }

  lemma SmallPow2(k: nat)
    ensures k >= 3 ==> Pow2(k) == 8 * Pow2(k - 3)
    ensures k < 3 ==> Pow2(k) < 8
  {
    if k >= 3 {
      assert Pow2(k) == 2 * Pow2(k - 1) == 4 * Pow2(k - 2);
    }
  }

  /** The uint32_t stored at index at; nobody but this host reads it, so any byte order will do. */
  function Word(mem: seq<byte>, at: nat): word32
    requires at + 4 <= |mem|
  {
    FromBe32(mem[at..at + 4])
  }

  /** varchunk_elmnt_t */
  function Header(size: word32, gap: word32): (s: seq<byte>)
    ensures |s| == HEADER
  {
    Be32(size) + Be32(gap)
  }

  /** The shared memory of varchunk_t; size is |mem| and mask is size - 1. */
  datatype Ring = Ring(mem: seq<byte>, head: nat, tail: nat, rsvd: nat, gapd: nat) {

    /** PAD works on 32 bit words, and the element header holds a 32 bit size. */
    ghost predicate Shape() {
      && (|mem| % 8 == 0 || |mem| < 8)
      && |mem| <= 0x8000_0000
      && head < |mem| && head % 8 == 0
      && tail < |mem| && tail % 8 == 0
    }

    /** Bytes occupied by unread elements. */
    function Used(): (n: nat)
      requires head < |mem| && tail < |mem|
    {
      Dist(tail, head, |mem|)
    }

    /** Where the element of the current reservation starts. */
    function Start(): nat {
      if gapd > 0 then 0 else head
    }

    /** The unread elements are exactly the chunks of the log from number from on. */
    ghost predicate Holds(log: seq<seq<byte>>, from: nat) {
      Shape() && Chain(mem, tail, Used(), log, from, |log|)
    }

    /**
     * The reservation that rsvd and gapd describe lies in the buffer and in the free
     * part of the ring. It keeps one byte spare, so that a full ring never has head
     * equal to tail.
     */
    ghost predicate Reserved()
      requires Shape()
    {
      && 2 * HEADER <= rsvd
      && Start() + rsvd <= |mem|
      && (gapd > 0 ==> head + gapd == |mem|)
      && Used() + gapd + rsvd < |mem|
    }
  }

  // ----- The layout of unread elements -----

  predicate IsGap(mem: seq<byte>, at: nat)
    requires at + HEADER <= |mem|
  {
    Word(mem, at + 4) != 0
  }

  function ElementLength(mem: seq<byte>, at: nat): nat
    requires at + HEADER <= |mem|
  {
    HEADER + Pad(Word(mem, at))
  }

  function Payload(mem: seq<byte>, pos: nat): seq<byte>
    requires pos + HEADER <= |mem| && pos + HEADER + Word(mem, pos) <= |mem|
  {
    mem[pos + HEADER..pos + HEADER + Word(mem, pos)]
  }

  function NextElement(mem: seq<byte>, pos: nat): nat
    requires pos + HEADER <= |mem|
  {
    Wrap(pos + ElementLength(mem, pos), |mem|)
  }

  /**
   * One element of at most room bytes: a chunk, or a gap that reaches the end of the
   * buffer exactly and has a chunk behind it, at index 0.
   */
  ghost predicate Element(mem: seq<byte>, pos: nat, room: nat) {
    && pos % 8 == 0 && pos + HEADER <= |mem|
    && var len := ElementLength(mem, pos);
    && len <= room && pos + len <= |mem|
    && HEADER + Word(mem, pos) <= len
    && (IsGap(mem, pos) ==> pos + len == |mem| && len < room && !IsGap(mem, 0))
  }

  /**
   * The room bytes from pos on are whole elements; their chunks are those numbered
   * from, from + 1, ..., to - 1 in the log of chunks.
   */
  ghost predicate Chain(mem: seq<byte>, pos: nat, room: nat, log: seq<seq<byte>>, from: nat, to: nat)
    decreases room
  {
    if room == 0 then from == to
    else
      && Element(mem, pos, room)
      && var rest := room - ElementLength(mem, pos);
      if IsGap(mem, pos) then
        Chain(mem, NextElement(mem, pos), rest, log, from, to)
      else
        && from < to <= |log| && log[from] == Payload(mem, pos)
        && Chain(mem, NextElement(mem, pos), rest, log, from + 1, to)
  }

  /** The two memories agree on the room bytes from pos on. */
  ghost predicate SameUnread(mem: seq<byte>, mem': seq<byte>, pos: nat, room: nat)
    requires pos < |mem|
  {
    && |mem| == |mem'|
    && forall i :: 0 <= i < |mem| && Dist(pos, i, |mem|) < room ==> mem[i] == mem'[i]
  }

  /** Stores outside a chain leave the chain and its chunks alone. */
  lemma {:induction false} ChainFrame(mem: seq<byte>, mem': seq<byte>, pos: nat, room: nat,
                                      log: seq<seq<byte>>, from: nat, to: nat)
    requires pos < |mem| && room <= |mem|
    requires Chain(mem, pos, room, log, from, to) && SameUnread(mem, mem', pos, room)
    ensures Chain(mem', pos, room, log, from, to)
    decreases room
  {
    hide Pad, Word, Payload;
    if room > 0 {
      var len := ElementLength(mem, pos);
      ElementFrame(mem, mem', pos, room);
      SameUnreadRest(mem, mem', pos, room, len);
      ChainFrame(mem, mem', NextElement(mem, pos), room - len, log, if IsGap(mem, pos) then from else from + 1, to);
    }
  }

  lemma SameUnreadRest(mem: seq<byte>, mem': seq<byte>, pos: nat, room: nat, len: nat)
    requires pos < |mem| && pos + len <= |mem| && len <= room && SameUnread(mem, mem', pos, room)
    ensures Wrap(pos + len, |mem|) < |mem|
    ensures SameUnread(mem, mem', Wrap(pos + len, |mem|), room - len)
  {
    forall i | 0 <= i < |mem| && Dist(Wrap(pos + len, |mem|), i, |mem|) < room - len
      ensures mem[i] == mem'[i]
    {
      assert Dist(pos, i, |mem|) < room;
    }
  }

  lemma WordFrame(mem: seq<byte>, mem': seq<byte>, at: nat, pos: nat, room: nat)
    requires pos < |mem| && SameUnread(mem, mem', pos, room)
    requires at + 4 <= |mem| && Dist(pos, at, |mem|) + 4 <= room
    requires pos <= at || at + 4 <= pos
    ensures Word(mem, at) == Word(mem', at)
  {
    assert forall i :: at <= i < at + 4 ==> Dist(pos, i, |mem|) < room;
    assert mem[at..at + 4] == mem'[at..at + 4];
  }

  lemma ElementFrame(mem: seq<byte>, mem': seq<byte>, pos: nat, room: nat)
    requires pos < |mem| && room <= |mem|
    requires Element(mem, pos, room) && SameUnread(mem, mem', pos, room)
    requires IsGap(mem, pos) ==> ElementLength(mem, pos) + HEADER <= room
    ensures Element(mem', pos, room) && ElementLength(mem', pos) == ElementLength(mem, pos)
    ensures IsGap(mem', pos) == IsGap(mem, pos) && Word(mem', pos) == Word(mem, pos)
    ensures Payload(mem', pos) == Payload(mem, pos)
  {
    hide Pad;
    WordFrame(mem, mem', pos, pos, room);
    WordFrame(mem, mem', pos + 4, pos, room);
    if IsGap(mem, pos) {
      WordFrame(mem, mem', 4, pos, room);
    }
    var n := Word(mem, pos);
    assert forall i :: pos <= i < pos + HEADER + n ==> Dist(pos, i, |mem|) < room;
  }

  /** Two chains in a row are one chain. */
  lemma {:induction false} ChainConcat(mem: seq<byte>, pos: nat, r1: nat, r2: nat,
                                       log: seq<seq<byte>>, from: nat, mid: nat, to: nat)
    requires pos < |mem| && r1 + r2 <= |mem| && mid <= to
    requires Chain(mem, pos, r1, log, from, mid) && Chain(mem, Wrap(pos + r1, |mem|), r2, log, mid, to)
    requires to <= |log|
    ensures Chain(mem, pos, r1 + r2, log, from, to)
    decreases r1
  {
    hide Pad, Word, Payload;
    if r1 > 0 {
      LongerRun(mem, pos, r1, r2);
      ChainConcat(mem, NextElement(mem, pos), r1 - ElementLength(mem, pos), r2, log,
                  if IsGap(mem, pos) then from else from + 1, mid, to);
    }
  }

  lemma LongerRun(mem: seq<byte>, pos: nat, r1: nat, r2: nat)
    requires pos < |mem| && r1 <= |mem| && Element(mem, pos, r1)
    ensures Element(mem, pos, r1 + r2) && NextElement(mem, pos) < |mem| && 0 < ElementLength(mem, pos) <= r1
    ensures Wrap(NextElement(mem, pos) + (r1 - ElementLength(mem, pos)), |mem|) == Wrap(pos + r1, |mem|)
  {
    hide Pad, Word;
  }

  /** Later entries of the log do not matter. */
  lemma {:induction false} ChainLongerLog(mem: seq<byte>, pos: nat, room: nat,
                                          log: seq<seq<byte>>, more: seq<seq<byte>>, from: nat, to: nat)
    requires Chain(mem, pos, room, log, from, to)
    ensures Chain(mem, pos, room, log + more, from, to)
    decreases room
  {
    hide Pad, Word, Payload;
    if room > 0 {
      ChainLongerLog(mem, NextElement(mem, pos), room - ElementLength(mem, pos), log, more,
                     if IsGap(mem, pos) then from else from + 1, to);
    }
  }

  /** The memory determines the chunks. */
  lemma {:induction false} ChainUnique(mem: seq<byte>, pos: nat, room: nat,
                                       log: seq<seq<byte>>, from: nat, to: nat,
                                       log': seq<seq<byte>>, from': nat, to': nat)
    requires to <= |log| && to' <= |log'|
    requires Chain(mem, pos, room, log, from, to) && Chain(mem, pos, room, log', from', to')
    ensures from <= to && from' <= to' && log[from..to] == log'[from'..to']
    decreases room
  {
    hide Pad, Word, Payload;
    if room > 0 {
      var rest := room - ElementLength(mem, pos);
      if IsGap(mem, pos) {
        ChainUnique(mem, NextElement(mem, pos), rest, log, from, to, log', from', to');
      } else {
        ChainUnique(mem, NextElement(mem, pos), rest, log, from + 1, to, log', from' + 1, to');
        assert log[from..to] == [log[from]] + log[from + 1..to];
        assert log'[from'..to'] == [log'[from']] + log'[from' + 1..to'];
      }
    }
  }

  /** A run of elements that does not reach beyond the end of the buffer starts with a chunk. */
  lemma ContiguousStartsWithChunk(mem: seq<byte>, pos: nat, room: nat, log: seq<seq<byte>>, from: nat, to: nat)
    requires Chain(mem, pos, room, log, from, to) && 0 < room && pos + room <= |mem|
    ensures !IsGap(mem, pos) && from < to <= |log| && log[from] == Payload(mem, pos)
  {}

  /** After a gap there is always a chunk, at the start of the buffer. */
  lemma GapIsFollowedByChunk(mem: seq<byte>, pos: nat, room: nat, log: seq<seq<byte>>, from: nat, to: nat)
    requires pos < |mem| && Chain(mem, pos, room, log, from, to) && 0 < room && IsGap(mem, pos)
    ensures ElementLength(mem, pos) == |mem| - pos < room && NextElement(mem, pos) == 0
    ensures !IsGap(mem, 0) && Chain(mem, 0, room - (|mem| - pos), log, from, to)
    ensures from < to <= |log| && log[from] == Payload(mem, 0)
  {
    hide Pad, Word;
  }

  /** How many of the elements of a chain are gaps. */
  function Gaps(mem: seq<byte>, pos: nat, room: nat): nat
    decreases room
  {
    if room == 0 || pos + HEADER > |mem| || ElementLength(mem, pos) > room then 0
    else
      (if IsGap(mem, pos) then 1 else 0) + Gaps(mem, NextElement(mem, pos), room - ElementLength(mem, pos))
  }

  /** The unread bytes contain at most one gap, and none unless they wrap around the end of the buffer. */
  lemma {:induction false} AtMostOneGap(mem: seq<byte>, pos: nat, room: nat, log: seq<seq<byte>>, from: nat, to: nat)
    requires pos < |mem| && room <= |mem| && Chain(mem, pos, room, log, from, to)
    ensures Gaps(mem, pos, room) <= if pos + room <= |mem| then 0 else 1
    decreases room
  {
    hide Pad, Word, Payload;
    if room > 0 {
      var gap, rest := IsGap(mem, pos), room - ElementLength(mem, pos);
      LongerRun(mem, pos, room, 0);
      AtMostOneGap(mem, NextElement(mem, pos), rest, log, if gap then from else from + 1, to);
    }
  }

  /** A chunk written at pos is a chain of its own. */
  lemma SingleChunk(mem: seq<byte>, pos: nat, written: nat, padded: nat, log: seq<seq<byte>>, from: nat)
    requires pos % 8 == 0 && padded == Pad(written) && written <= padded && pos + HEADER + padded <= |mem|
    requires Word(mem, pos) == written && !IsGap(mem, pos)
    requires from < |log| && log[from] == mem[pos + HEADER..pos + HEADER + written]
    ensures Chain(mem, pos, HEADER + padded, log, from, from + 1)
  {
    hide Pad, Word, IsGap;
  }

  /** A gap up to the end of the buffer followed by a chunk at index 0 is a chain. */
  lemma GapThenChunk(mem: seq<byte>, pos: nat, written: nat, padded: nat, log: seq<seq<byte>>, from: nat)
    requires pos % 8 == 0 && |mem| % 8 == 0 && pos + HEADER <= |mem| <= 0x8000_0000
    requires padded == Pad(written) && written <= padded && HEADER + padded <= |mem|
    requires Word(mem, pos) == |mem| - pos - HEADER && IsGap(mem, pos)
    requires Word(mem, 0) == written && !IsGap(mem, 0)
    requires from < |log| && log[from] == mem[HEADER..HEADER + written]
    ensures Chain(mem, pos, |mem| - pos + (HEADER + padded), log, from, from + 1)
  {
    GapLength(|mem|, pos);
    hide Pad, Word, IsGap;
    SingleChunk(mem, 0, written, padded, log, from);
    assert ElementLength(mem, pos) == |mem| - pos;
    assert NextElement(mem, pos) == 0;
    assert Element(mem, pos, |mem| - pos + (HEADER + padded));
  }

  lemma GapLength(size: nat, pos: nat)
    requires pos % 8 == 0 && size % 8 == 0 && pos + HEADER <= size <= 0x8000_0000
    ensures HEADER + Pad(size - pos - HEADER) == size - pos
  {}

  // ----- The producer's operations -----

  /**
   * The writable space and the reservation of varchunk_write_request_max, computed
   * from a tail that may have been loaded some time ago.
   */
  function Space(head: nat, tail: nat, size: nat): nat
    requires head < size && tail < size
  {
    if head == tail then size - 1 else Dist(head, tail, size) - 1
  }

  function Reserve(r: Ring, tail: nat, minimum: nat): (res: (Ring, Option<nat>))
    requires r.head < |r.mem| && tail < |r.mem|
  {
    var padded := 2 * HEADER + Pad(minimum);
    var space := Space(r.head, tail, |r.mem|);
    var end := r.head + space;
    if end > |r.mem| then
      var len1 := |r.mem| - r.head;
      var len2 := Wrap(end, |r.mem|);
      if len1 >= padded then
        (r.(rsvd := len1, gapd := 0), Some(r.head + HEADER))
      else if len2 >= padded then
        (r.(rsvd := len2, gapd := len1), Some(HEADER))
      else
        (r.(rsvd := 0, gapd := 0), None)
    else if space >= padded then
      (r.(rsvd := space, gapd := 0), Some(r.head + HEADER))
    else
      (r.(rsvd := 0, gapd := 0), None)
  }

  /** The header at head that turns the end of the buffer into a gap. */
  function MarkGap(r: Ring): Ring
    requires HEADER <= r.gapd <= 0x1_0000_0000 && r.head + HEADER <= |r.mem|
  {
    r.(mem := Put(r.mem, r.head, Header(r.gapd - HEADER, 1)))
  }

  /** The header of the chunk itself. */
  function MarkChunk(r: Ring, written: nat): Ring
    requires written < 0x1_0000_0000 && r.Start() + HEADER <= |r.mem|
  {
    r.(mem := Put(r.mem, r.Start(), Header(written, 0)))
  }

  function StoreHead(r: Ring, written: nat): Ring {
    r.(head := Wrap(r.head + r.gapd + HEADER + Pad(written), |r.mem|))
  }

  // ----- The consumer's operations -----

  function StoreTail(r: Ring, read: nat): Ring {
    r.(tail := Wrap(r.tail + read, |r.mem|))
  }

  // ----- What a reservation promises -----

  /** A tail loaded earlier: the consumer has since moved forward, but not past head. */
  ghost predicate EarlierTail(r: Ring, tail: nat)
    requires r.Shape()
  {
    && tail < |r.mem| && tail % 8 == 0
    && Dist(tail, r.tail, |r.mem|) + r.Used() < |r.mem|
  }

  /** A request that succeeds against a stale tail reserves free space, and enough of it. */
  lemma ReserveIsSafe(r: Ring, tail: nat, minimum: nat)
    requires r.Shape() && EarlierTail(r, tail)
    ensures var (r', off) := Reserve(r, tail, minimum);
      && r' == r.(rsvd := r'.rsvd, gapd := r'.gapd)
      && (off.Some? ==> r'.Reserved() && off.value == r'.Start() + HEADER
                        && 2 * HEADER + Pad(minimum) <= r'.rsvd)
      && (off.None? ==> r'.rsvd == 0 && r'.gapd == 0)
  {}

  /** The consumer moving forward only makes room: no reservation becomes invalid. */
  lemma ConsumerMoves(r: Ring, len: nat)
    requires r.Shape() && len <= r.Used() && len % 8 == 0
    ensures var r' := StoreTail(r, len);
      && r'.Shape() && r'.Used() == r.Used() - len
      && (r.Reserved() ==> r'.Reserved())
  {
    hide Wrap, Dist, Ring.Used;
    TailCloser(r, len);
    WrapAligned(r.tail + len, |r.mem|);
  }

  lemma TailCloser(r: Ring, len: nat)
    requires r.Shape() && len <= r.Used()
    ensures var r' := StoreTail(r, len);
      r'.tail < |r.mem| && r'.Used() == r.Used() - len && r.Used() < |r.mem|
  {
    hide Wrap, Dist;
    DistShrinks(r.tail, r.head, len, |r.mem|);
  }

  lemma DistShrinks(a: nat, b: nat, len: nat, size: nat)
    requires a < size && b < size && len <= Dist(a, b, size)
    ensures Wrap(a + len, size) < size && Dist(Wrap(a + len, size), b, size) == Dist(a, b, size) - len &&
      Dist(a, b, size) < size
  {}

  lemma WrapAligned(x: nat, size: nat)
    requires x % 8 == 0 && size > 0 && (size % 8 == 0 || x < 8)
    ensures Wrap(x, size) % 8 == 0
  {}

  lemma EarlierTailStays(r: Ring, len: nat, tail: nat)
    requires r.Shape() && len <= r.Used() && len % 8 == 0 && EarlierTail(r, tail)
    ensures StoreTail(r, len).Shape() && EarlierTail(StoreTail(r, len), tail)
  {
    hide Wrap, Dist;
    ConsumerMoves(r, len);
    DistGrows(tail, r.tail, len, |r.mem|);
  }

  lemma DistGrows(a: nat, b: nat, len: nat, size: nat)
    requires a < size && b < size && Dist(a, b, size) + len < size
    ensures Wrap(b + len, size) < size && Dist(a, Wrap(b + len, size), size) == Dist(a, b, size) + len
  {}

  /** Every byte of a reservation, and of the gap before it, is outside the unread bytes. */
  lemma ReservedIsFree(r: Ring, i: nat)
    requires r.Shape() && r.Reserved()
    requires r.Start() <= i < r.Start() + r.rsvd || r.head <= i < r.head + r.gapd
    ensures i < |r.mem| && Dist(r.tail, i, |r.mem|) >= r.Used()
  {}

  /** Pad rounds up to a multiple of eight, as long as 32 bits suffice, and only then. */
  lemma PadRoundsUp(n: nat)
    ensures Pad(n) % 8 == 0
    ensures n + 7 < 0x1_0000_0000 ==> n <= Pad(n) < n + 8
    ensures n <= Pad(n) <==> n + 7 < 0x1_0000_0000
  {}

  /** Writing no more than was requested keeps within the reservation. */
  lemma MinimumIsEnough(r: Ring, tail: nat, minimum: nat, written: nat)
    requires r.Shape() && EarlierTail(r, tail) && Reserve(r, tail, minimum).1.Some?
    requires written <= minimum && minimum + 7 < 0x1_0000_0000
    ensures written <= Reserve(r, tail, minimum).0.rsvd
    ensures HEADER + Pad(written) <= Reserve(r, tail, minimum).0.rsvd
  {
    ReserveIsSafe(r, tail, minimum);
    PadRoundsUp(written);
    PadRoundsUp(minimum);
    hide Pad, Reserve, Ring.Shape, Ring.Reserved, EarlierTail;
  }

  /** Where the committed element would lie in the buffer, and how full the ring would be. */
  ghost predicate CommitFits(r: Ring, written: nat)
    requires r.Shape()
  {
    && r.Start() + HEADER + Pad(written) <= |r.mem|
    && r.Used() + r.gapd + HEADER + Pad(written) < |r.mem|
  }

  /**
   * The assertion written <= rsvd lets through commits that do not fit. As far as the
   * producer can know, with the tail that it has loaded, a commit fits exactly when its
   * header is counted as well; then it fits whatever the consumer has done since.
   */
  lemma CommitFitsExactly(r: Ring, loaded: nat, minimum: nat, written: nat)
    requires r.Shape() && EarlierTail(r, loaded) && Reserve(r, loaded, minimum).1.Some?
    requires written <= Reserve(r, loaded, minimum).0.rsvd
    ensures CommitFits(Reserve(r, loaded, minimum).0.(tail := loaded), written)
            <==> HEADER + Pad(written) <= Reserve(r, loaded, minimum).0.rsvd
    ensures HEADER + Pad(written) <= Reserve(r, loaded, minimum).0.rsvd
            ==> CommitFits(Reserve(r, loaded, minimum).0, written)
  {}

  /** Only the consumer could know that there is more room: a larger commit may happen to fit. */
  lemma StaleTailIsCautious(r: Ring)
    requires |r.mem| == 64 && r.head == 32 && r.tail == 24
    ensures var r' := Reserve(r, 0, 8).0;
      && EarlierTail(r, 0) && 24 <= r'.rsvd < HEADER + Pad(24) && CommitFits(r', 24)
  {}

  /** With 32 bit padding that bound is good for rings of up to 2^31 bytes (WrittenFits), but not for the next size. */
  lemma RingTooLarge(r: Ring)
    requires |r.mem| == 0x1_0000_0000 && r.head == 0 && r.tail == 0
    ensures var (r', off), written := Reserve(r, r.tail, 8), 0xFFFF_FFFF;
      && off.Some? && written <= r'.rsvd && HEADER + Pad(written) <= r'.rsvd
      && r'.Start() + HEADER + written > |r.mem|
  {}

  /** A commit that the source's assertion accepts, after which the full ring looks empty. */
  lemma FullTakenForEmpty(r: Ring)
    requires |r.mem| == 32 && r.head == 0 && r.tail == 0
    ensures var (r', off) := Reserve(r, r.tail, 8);
      off.Some? && 24 <= r'.rsvd && StoreHead(r', 24).head == r'.tail
  {}

  /** A commit within the bound moves head forward by the element's length and never onto tail. */
  lemma CommitAdvances(r: Ring, written: nat)
    requires r.Shape() && r.Reserved() && written <= r.rsvd && HEADER + Pad(written) <= r.rsvd
    ensures var r' := StoreHead(r, written);
      r'.Shape() && r'.Used() == r.Used() + r.gapd + HEADER + Pad(written) && r'.head != r'.tail
  {}

  /** No gap is made as long as the end of the buffer has room, and none but up to the end of the buffer. */
  lemma NoNeedlessGap(r: Ring, tail: nat, minimum: nat)
    requires r.Shape() && EarlierTail(r, tail) && Reserve(r, tail, minimum).1.Some?
    ensures var (r', off) := Reserve(r, tail, minimum);
      && (r'.gapd > 0 ==> r'.gapd == |r.mem| - r.head < 2 * HEADER + Pad(minimum) && off.value == 8)
      && (r'.gapd == 0 ==> off.value == r.head + 8)
  {}

  // ----- No wedging -----

  /** On an empty ring every request of up to half of the buffer succeeds, wherever head is. */
  lemma EmptyRingServesHalf(r: Ring, minimum: nat)
    requires r.Shape() && r.Used() == 0
    requires 2 * HEADER + Pad(minimum) <= |r.mem| / 2
    ensures Reserve(r, r.tail, minimum).1.Some?
  {}

  /** With head in the middle, half of the buffer is the most that can be requested. */
  lemma HalfIsTight(r: Ring, minimum: nat)
    requires r.Shape() && r.Used() == 0 && |r.mem| >= 16 && 2 * r.head == |r.mem|
    ensures Reserve(r, r.tail, minimum).1.Some? <==> 2 * HEADER + Pad(minimum) <= |r.mem| / 2
  {}

  /**
   * There is room for a burst of requests whose elements, and one more header, take up to
   * budget bytes together: in one piece behind head, or at the start of the buffer, or before tail.
   */
  ghost predicate Roomy(r: Ring, budget: nat)
    requires r.Shape()
  {
    if r.head < r.tail then budget < r.tail - r.head
    else budget + (if r.tail == 0 then 1 else 0) <= |r.mem| - r.head || budget < r.tail
  }

  /**
   * An empty ring has room for a burst whose elements, and one more header, take up to half
   * of the buffer, wherever head is.
   */
  lemma EmptyIsRoomy(r: Ring)
    requires r.Shape() && r.Used() == 0 && |r.mem| >= 16
    ensures Roomy(r, |r.mem| / 2)
  {}

  /** A request within that room succeeds, and leaves the room that it has not used. */
  lemma RoomyServes(r: Ring, budget: nat, n: nat)
    requires r.Shape() && Roomy(r, budget) && 2 * HEADER + Pad(n) <= budget
    ensures var (r', off) := Reserve(r, r.tail, n);
      && off.Some? && StoreHead(r', n).Shape() && Roomy(StoreHead(r', n), budget - HEADER - Pad(n))
  {}
}
