// varchunk/varchunk.h: varchunk_t and its functions, as the caller of either side sees them.
//
// Each method is proved to be a run of the steps of RingProtocol that nobody
// interrupts, so what holds for every run of those steps holds here. The ghost fields
// say which side is in the middle of what, and record the chunks.

module Varchunk {
  import opened Bits
  import opened Bytes
  import opened RingLayout
  import opened RingProtocol

  /** The least power of two that is not below minimum. Beyond 2^63 the shift would reach zero. */
  method BodySize(minimum: nat) returns (size: nat)
    requires minimum <= Pow2(63)
    ensures IsPow2(size) && minimum <= size <= Pow2(63)
    ensures forall k: nat :: minimum <= Pow2(k) ==> size <= Pow2(k)
  {
    hide Pow2;
    size := 1;
    ghost var n: nat := 0;
    Pow2Step(0);
    while size < minimum
      invariant size == Pow2(n) && n <= 63
      invariant forall k: nat :: k < n ==> Pow2(k) < minimum
      decreases 63 - n
    {
      Pow2Step(n);
      size := 2 * size;
      n := n + 1;
    }
    Pow2Monotone(n, 63);
    forall k: nat | minimum <= Pow2(k)
      ensures size <= Pow2(k)
    {
      Pow2Monotone(n, k);
    }
  }

  lemma ValidIndexes(s: System)
    requires Inv(s)
    ensures s.ring.Shape()
  {}

  lemma Pow2Step(n: nat)
    ensures Pow2(0) == 1 && Pow2(n + 1) == 2 * Pow2(n)
  {}

  // ----- Calls that nobody interrupts -----

  function WriteRequested(s: System, minimum: nat): System
    requires s.ring.head < |s.ring.mem| && s.ring.tail < |s.ring.mem|
  {
    var (r', off) := Reserve(s.ring, s.ring.tail, minimum);
    s.(ring := r', producer := if off.Some? then Reserving(minimum) else Idle)
  }

  /** What the caller has written into its reservation. */
  function Reservation(r: Ring, written: nat): seq<byte>
    requires r.Start() + HEADER + written <= |r.mem|
  {
    r.mem[r.Start() + HEADER..r.Start() + HEADER + written]
  }

  function MarkHeaders(r: Ring, written: nat): Ring
    requires written < 0x1_0000_0000 && HEADER <= |r.mem| && r.head + HEADER <= |r.mem|
    requires r.gapd > 0 ==> HEADER <= r.gapd <= 0x1_0000_0000
  {
    MarkChunk(if r.gapd > 0 then MarkGap(r) else r, written)
  }

  ghost predicate Committable(s: System, written: nat) {
    && s.ring.Shape() && s.ring.Reserved()
    && written <= s.ring.rsvd && HEADER + Pad(written) <= s.ring.rsvd
    && s.ring.Start() + HEADER + written <= |s.ring.mem|
  }

  ghost function Committed(s: System, written: nat): System
    requires Committable(s, written)
  {
    s.(ring := StoreHead(MarkHeaders(s.ring, written), written),
       producer := Idle, committed := s.committed + [Reservation(s.ring, written)])
  }

  lemma CommitBounds(s: System, written: nat)
    requires Committable(s, written)
    ensures var r := s.ring;
      && HEADER <= |r.mem| && r.head + HEADER <= |r.mem| && written < 0x1_0000_0000
      && (r.gapd > 0 ==> HEADER <= r.gapd <= 0x1_0000_0000)
      && r.head + r.gapd + HEADER + Pad(written) < 2 * |r.mem|
      && r.Start() + HEADER + written <= |r.mem|
  {}

  /** The first element is a gap: the request has to step over it. */
  predicate AtGap(r: Ring)
    requires r.tail < |r.mem| && r.head < |r.mem|
  {
    r.tail + r.Used() > |r.mem| && r.tail + HEADER <= |r.mem| && IsGap(r.mem, r.tail)
  }

  function ReadRequested(s: System): System
    requires s.ring.tail < |s.ring.mem| && s.ring.head < |s.ring.mem|
    requires s.ring.Used() > 0 ==> s.ring.tail + HEADER <= |s.ring.mem|
  {
    var r := s.ring;
    if r.Used() == 0 then s.(consumer := Resting)
    else if AtGap(r) then
      s.(ring := StoreTail(r, |r.mem| - r.tail), consumer := Holding(HEADER, Word(r.mem, 0)))
    else
      s.(consumer := Holding(r.tail + HEADER, Word(r.mem, r.tail)))
  }

  function Released(s: System): System
    requires s.ring.tail + HEADER <= |s.ring.mem| && |s.received| < |s.committed|
  {
    s.(ring := StoreTail(s.ring, HEADER + Pad(Word(s.ring.mem, s.ring.tail))),
       consumer := Resting, received := s.received + [s.committed[|s.received|]])
  }

  lemma WriteRequestRun(s: System, minimum: nat)
    requires Inv(s) && Enabled(s, LoadTail(minimum))
    ensures s.ring.Shape() && Inv(WriteRequested(s, minimum))
    ensures Run(s, [LoadTail(minimum), Decide])
    ensures After(s, [LoadTail(minimum), Decide]) == WriteRequested(s, minimum)
    ensures var (r', off) := Reserve(s.ring, s.ring.tail, minimum);
      off.Some? ==> off.value == r'.Start() + HEADER
  {
    ReserveIsSafe(s.ring, s.ring.tail, minimum);
    LoadTailInv(s, minimum);
    DecideInv(Next(s, LoadTail(minimum)));
    hide Pad, Word, Chain, Reserve, Run, After;
    TwoSteps(s, LoadTail(minimum), Decide);
  }

  lemma CommitRun(s: System, written: nat)
    requires Inv(s) && Enabled(s, Commit(written))
    ensures Committable(s, written) && Inv(Committed(s, written)) && |s.received| <= |s.committed|
    ensures var s' := Committed(s, written);
      && s'.received == s.received
      && s'.committed[|s.received|..] == s.committed[|s.received|..] + [Reservation(s.ring, written)]
    ensures var steps := if s.ring.gapd > 0 then [Commit(written), FinishHeaders, PublishHead]
                                            else [Commit(written), PublishHead];
      Run(s, steps) && After(s, steps) == Committed(s, written)
  {
    hide Inv, Enabled, Committable, Run, After, MarkHeaders, StoreHead, Reservation;
    CanCommit(s, written);
    if s.ring.gapd > 0 {
      CommitRunWithGap(s, written);
    } else {
      CommitRunWithoutGap(s, written);
    }
  }

  lemma CanCommit(s: System, written: nat)
    requires Inv(s) && Enabled(s, Commit(written))
    ensures Committable(s, written) && |s.received| <= |s.committed|
  {
    WrittenFits(s.ring, written);
    hide Chain, Word, Pad;
  }

  lemma CommitRunWithGap(s: System, written: nat)
    requires Inv(s) && Enabled(s, Commit(written)) && Committable(s, written) && s.ring.gapd > 0
    ensures Inv(Committed(s, written))
    ensures Run(s, [Commit(written), FinishHeaders, PublishHead])
    ensures After(s, [Commit(written), FinishHeaders, PublishHead]) == Committed(s, written)
  {
    hide Inv, Run, After, Pad, Header, Put, MarkGap, MarkChunk, StoreHead, Ring.Shape, Ring.Reserved;
    CommitInv(s, written);
    var s1 := Next(s, Commit(written));
    FinishHeadersInv(s1);
    var s2 := Next(s1, FinishHeaders);
    PublishHeadInv(s2);
    PayloadKept(s.ring, s2.ring, written);
    ThreeSteps(s, Commit(written), FinishHeaders, PublishHead);
  }

  lemma CommitRunWithoutGap(s: System, written: nat)
    requires Inv(s) && Enabled(s, Commit(written)) && Committable(s, written) && s.ring.gapd == 0
    ensures Inv(Committed(s, written))
    ensures Run(s, [Commit(written), PublishHead])
    ensures After(s, [Commit(written), PublishHead]) == Committed(s, written)
  {
    hide Inv, Run, After, Pad, Header, Put, MarkGap, MarkChunk, StoreHead, Ring.Shape, Ring.Reserved;
    CommitInv(s, written);
    var s1 := Next(s, Commit(written));
    PublishHeadInv(s1);
    PayloadKept(s.ring, s1.ring, written);
    TwoSteps(s, Commit(written), PublishHead);
  }

  /** The headers do not touch what the caller has written. */
  lemma PayloadKept(r: Ring, r': Ring, written: nat)
    requires r.Shape() && r.Reserved() && r.Start() + HEADER + written <= |r.mem|
    requires written <= r.rsvd && HEADER + Pad(written) <= r.rsvd
    requires r' == MarkHeaders(r, written)
    ensures Reservation(r', written) == Reservation(r, written)
  {
    hide Header;
    PadRoundsUp(written);
  }

  lemma ReadRequestRun(s: System)
    requires Inv(s) && Enabled(s, LoadHead)
    ensures s.ring.Shape() && (s.ring.Used() > 0 ==> s.ring.tail + HEADER <= |s.ring.mem|)
    ensures Inv(ReadRequested(s))
    ensures var steps := if AtGap(s.ring) then [LoadHead, Inspect, TakeFront] else [LoadHead, Inspect];
      Run(s, steps) && After(s, steps) == ReadRequested(s)
  {
    hide Inv, Run, After, Word, Next, IsGap, ReadRequested, AtGap, Ring.Shape;
    ValidIndexes(s);
    LoadHeadInv(s);
    HeadIsLoaded(s);
    InspectInv(Next(s, LoadHead));
    InspectedElement(s);
    if AtGap(s.ring) {
      ThreeSteps(s, LoadHead, Inspect, TakeFront);
    } else {
      TwoSteps(s, LoadHead, Inspect);
    }
  }

  lemma HeadIsLoaded(s: System)
    requires Inv(s) && Enabled(s, LoadHead)
    ensures Next(s, LoadHead).consumer.HeadLoaded?
  {}

  /** A request finds the oldest chunk that was not received yet, and finds nothing only if there is none. */
  lemma ReadRequestFinds(s: System)
    requires Inv(s) && Enabled(s, LoadHead) && s.ring.Shape()
    requires s.ring.Used() > 0 ==> s.ring.tail + HEADER <= |s.ring.mem|
    requires Inv(ReadRequested(s))
    ensures var s' := ReadRequested(s);
      && |s.received| <= |s.committed| && s'.received == s.received && s'.committed == s.committed
      && (s'.consumer.Resting? <==> |s.received| == |s.committed|)
      && (s'.consumer.Holding? ==>
            && s'.consumer.off + s'.consumer.len <= |s.ring.mem| && |s.received| < |s.committed|
            && s.ring.mem[s'.consumer.off..s'.consumer.off + s'.consumer.len] == s.committed[|s.received|])
  {
    hide Pad, Word, IsGap, Chain;
    UnreadIffUsed(s);
    var s' := ReadRequested(s);
    if s'.consumer.Holding? {
      HeldBytes(s');
    }
  }

  lemma InspectedElement(s: System)
    requires Inv(s) && Enabled(s, LoadHead) && Inv(Next(s, LoadHead))
    requires Inv(Next(Next(s, LoadHead), Inspect))
    ensures s.ring.Shape() && (s.ring.Used() > 0 ==> s.ring.tail + HEADER <= |s.ring.mem|)
    ensures var s2 := Next(Next(s, LoadHead), Inspect);
      if AtGap(s.ring) then
        && s2 == s.(ring := StoreTail(s.ring, |s.ring.mem| - s.ring.tail), consumer := GapSkipped)
        && Next(s2, TakeFront) == ReadRequested(s)
      else s2 == ReadRequested(s)
  {
    hide Pad, Word;
  }

  lemma ReleaseRun(s: System)
    requires Inv(s) && s.consumer.Holding?
    ensures |s.received| < |s.committed| && s.ring.tail + HEADER <= |s.ring.mem|
    ensures s.ring.tail < |s.ring.mem| && HEADER + Pad(Word(s.ring.mem, s.ring.tail)) <= |s.ring.mem|
    ensures Inv(Released(s))
    ensures Run(s, [Release]) && After(s, [Release]) == Released(s)
  {
    HeldBytes(s);
    ReleaseInv(s);
    hide Pad, Word, Payload;
    assert [Release][1..] == [];
    assert Run(Next(s, Release), []);
  }

  lemma TwoSteps(s: System, a: Step, b: Step)
    requires Inv(s) && Enabled(s, a) && Inv(Next(s, a)) && Enabled(Next(s, a), b)
    ensures Inv(Next(Next(s, a), b))
    ensures Run(s, [a, b]) && After(s, [a, b]) == Next(Next(s, a), b)
  {
    hide Inv, Next, Enabled;
    StepInv(Next(s, a), b);
    assert [a, b][1..] == [b] && [b][1..] == [];
    assert Run(Next(Next(s, a), b), []);
    assert Run(Next(s, a), [b]) && After(Next(s, a), [b]) == Next(Next(s, a), b);
  }

  lemma ThreeSteps(s: System, a: Step, b: Step, c: Step)
    requires Inv(s) && Enabled(s, a)
    requires Inv(Next(s, a)) && Enabled(Next(s, a), b)
    requires Inv(Next(Next(s, a), b)) && Enabled(Next(Next(s, a), b), c)
    ensures Inv(Next(Next(Next(s, a), b), c))
    ensures Run(s, [a, b, c]) && After(s, [a, b, c]) == Next(Next(Next(s, a), b), c)
  {
    hide Inv, Next, Enabled;
    TwoSteps(Next(s, a), b, c);
    assert [a, b, c][1..] == [b, c];
  }

  class Varchunk {
    const size: nat
    const mask: nat
    const buf: array<byte>
    var rsvd: nat
    var gapd: nat
    var head: nat
    var tail: nat

    ghost var producer: Producer
    ghost var consumer: Consumer
    ghost var committed: seq<seq<byte>>
    ghost var received: seq<seq<byte>>

    ghost function Sys(): System
      reads this, buf
    {
      System(Ring(buf[..], head, tail, rsvd, gapd), producer, consumer, committed, received)
    }

    ghost predicate Valid()
      reads this, buf
    {
      && size == buf.Length && mask + 1 == size && IsPow2(size)
      && Inv(Sys())
    }

    /** The chunks that wait to be received. */
    ghost function Contents(): seq<seq<byte>>
      requires Valid()
      reads this, buf
    {
      committed[|received|..]
    }

    /** varchunk_new: the buffer and the reservation are not initialized. */
    constructor (minimum: nat)
      requires minimum <= 0x8000_0000
      ensures Valid() && Initial(Sys()) && Contents() == [] && minimum <= size
    {
      assert Pow2(31) <= Pow2(63) by { Pow2Monotone(31, 63); }
      Pow2Of31();
      var bodySize := BodySize(minimum);
      size := bodySize;
      mask := bodySize - 1;
      buf := new byte[bodySize];
      head := 0;
      tail := 0;
      producer, consumer, committed, received := Idle, Resting, [], [];
      new;
      InitialInv(Sys());
    }

    /** How much can be written from head on, leaving one byte spare. */
    method WritableSpace() returns (space: nat)
      requires Valid()
      ensures space == Space(head, tail, size)
    {
      hide Inv, And;
      ValidIndexes(Sys());
      MaskWraps(tail + size - head, size);
      if head > tail {
        space := And(tail + size - head, mask) - 1;
      } else if head < tail {
        space := tail - head - 1;
      } else {
        space := size - 1;
      }
    }

    /** The decision of varchunk_write_request_max, and the fields it sets. */
    method SetReservation(minimum: nat) returns (ptr: Option<nat>)
      requires Valid()
      modifies this`rsvd, this`gapd
      ensures (Sys().ring, ptr) == Reserve(old(Sys().ring), tail, minimum)
    {
      hide Inv, Pad, And;
      ValidIndexes(Sys());
      var padded := 2 * HEADER + Pad(minimum);
      var space := WritableSpace();
      var end := head + space;
      MaskWraps(end, size);
      if end > size {
        var len1 := size - head;
        if len1 < padded {
          var len2 := And(end, mask);
          if len2 < padded {
            rsvd, gapd, ptr := 0, 0, None;
          } else {
            rsvd, gapd, ptr := len2, len1, Some(HEADER);
          }
        } else {
          rsvd, gapd, ptr := len1, 0, Some(head + HEADER);
        }
      } else if space < padded {
        rsvd, gapd, ptr := 0, 0, None;
      } else {
        rsvd, gapd, ptr := space, 0, Some(head + HEADER);
      }
    }

    /** varchunk_write_request_max, with the pointer as an index into buf. */
    method WriteRequestMax(minimum: nat) returns (ptr: Option<nat>, maximum: nat)
      requires Valid() && (producer.Idle? || producer.Reserving?)
      modifies this`rsvd, this`gapd, this`producer
      ensures Valid() && maximum == rsvd && Contents() == old(Contents())
      ensures producer == if ptr.Some? then Reserving(minimum) else Idle
      ensures ptr.Some? ==> ptr.value == Sys().ring.Start() + HEADER
      ensures Sys() == WriteRequested(old(Sys()), minimum)
    {
      WriteRequestRun(Sys(), minimum);
      hide Inv, Run, After, Reserve;
      ptr := SetReservation(minimum);
      maximum := rsvd;
      producer := if ptr.Some? then Reserving(minimum) else Idle;
    }

    /** What the caller does with a reservation: store bytes into it. */
    method Fill(at: nat, bs: seq<byte>)
      requires Valid() && producer.Reserving?
      requires Sys().ring.Start() + HEADER <= at <= at + |bs| <= Sys().ring.Start() + rsvd
      modifies buf
      ensures Valid()
      ensures buf[..] == Put(old(buf[..]), at, bs)
    {
      StoreInReservation(Sys(), at, bs);
      InvisibleStores(Sys(), Put(buf[..], at, bs));
      hide Inv, Put, Ring.Reserved, ConsumerInv;
      Store(at, bs);
    }

    method Store(at: nat, bs: seq<byte>)
      requires at + |bs| <= buf.Length
      modifies buf
      ensures buf[..] == Put(old(buf[..]), at, bs)
    {
      forall i | 0 <= i < |bs| {
        buf[at + i] := bs[i];
      }
    }

    /** The headers of an element, and of the gap before it. */
    method StoreHeaders(written: nat)
      requires written < 0x1_0000_0000 && HEADER <= buf.Length && head + HEADER <= buf.Length
      requires gapd > 0 ==> HEADER <= gapd <= 0x1_0000_0000
      modifies buf
      ensures Sys() == old(Sys()).(ring := MarkHeaders(old(Sys().ring), written))
    {
      hide Header, Put;
      if gapd > 0 {
        Store(head, Header(gapd - HEADER, 1));
        Store(0, Header(written, 0));
      } else {
        Store(head, Header(written, 0));
      }
    }

    /** varchunk_write_advance: the chunk becomes readable. */
    method WriteAdvance(written: nat)
      requires Valid() && producer.Reserving?
      requires written <= rsvd && HEADER + Pad(written) <= rsvd
      modifies this`head, this`producer, this`committed, buf
      ensures Valid() && producer.Idle?
      ensures old(Committable(Sys(), written)) && Sys() == Committed(old(Sys()), written)
      ensures Contents() == old(Contents() + [Reservation(Sys().ring, written)])
    {
      hide Inv, Run, After, Pad, And, MarkHeaders, IsPow2, Committable, Reservation, Ring.Shape, Ring.Reserved;
      ghost var s := Sys();
      CommitRun(s, written);
      CommitBounds(s, written);
      MaskWraps(head + gapd + HEADER + Pad(written), size);
      StoreHeaders(written);
      head := And(head + gapd + HEADER + Pad(written), mask);
      producer, committed := Idle, committed + [Reservation(s.ring, written)];
    }

    /** The decision of varchunk_read_request, and the gap it skips. */
    method FindFirst() returns (ptr: Option<nat>, toread: nat)
      requires Valid() && (Sys().ring.Used() > 0 ==> tail + HEADER <= size)
      modifies this`tail
      ensures ReadRequested(old(Sys()))
        == Sys().(consumer := if ptr.Some? then Holding(ptr.value, toread) else Resting)
    {
      hide Inv, And, Word;
      ValidIndexes(Sys());
      MaskWraps(head + size - tail, size);
      MaskWraps(size, size);
      var space;
      if head > tail {
        space := head - tail;
      } else {
        space := And(head + size - tail, mask);
      }
      if space > 0 {
        var end := tail + space;
        if end > size {
          if IsGap(buf[..], tail) {
            tail := And(tail + (size - tail), mask);
            toread := Word(buf[..], 0);
            ptr := Some(HEADER);
          } else {
            toread := Word(buf[..], tail);
            ptr := Some(tail + HEADER);
          }
        } else {
          toread := Word(buf[..], tail);
          ptr := Some(tail + HEADER);
        }
      } else {
        toread := 0;
        ptr := None;
      }
    }

    /** varchunk_read_request: the oldest chunk, or NULL exactly when there is none. */
    method ReadRequest() returns (ptr: Option<nat>, toread: nat)
      requires Valid() && (consumer.Resting? || consumer.Holding?)
      modifies this`tail, this`consumer
      ensures Valid() && Contents() == old(Contents())
      ensures ptr.None? <==> Contents() == []
      ensures ptr.Some? ==> ptr.value + toread <= size && buf[ptr.value..ptr.value + toread] == Contents()[0]
      ensures consumer == if ptr.Some? then Holding(ptr.value, toread) else Resting
      ensures Sys() == ReadRequested(old(Sys()))
    {
      hide Inv, Run, After, Word, IsPow2, ReadRequested;
      ReadRequestRun(Sys());
      ReadRequestFinds(Sys());
      ptr, toread := FindFirst();
      consumer := if ptr.Some? then Holding(ptr.value, toread) else Resting;
    }

    /** varchunk_read_advance: the oldest chunk is gone. */
    method ReadAdvance()
      requires Valid() && consumer.Holding?
      modifies this`tail, this`consumer, this`received
      ensures Valid() && consumer.Resting?
      ensures Sys() == Released(old(Sys()))
      ensures old(Contents()) != [] && Contents() == old(Contents())[1..]
    {
      hide Inv, Run, After, Pad, And, Word, IsPow2;
      ReleaseRun(Sys());
      var len := HEADER + Pad(Word(buf[..], tail));
      MaskWraps(tail + len, size);
      tail := And(tail + len, mask);
      consumer := Resting;
      received := received + [committed[|received|]];
    }
  }

  lemma MaskWraps(x: nat, size: nat)
    requires IsPow2(size) && x < 2 * size
    ensures And(x, size - 1) == Wrap(x, size)
  {
    var k: nat :| size == Pow2(k);
    AndMask(x, k);
  }
}
