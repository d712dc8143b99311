// varchunk/varchunk.h as a system of two threads.
//
// Producer and consumer each own one index. Every step below is one access to the
// memory they share, so that the steps of the two sides interleave freely: what one
// side has loaded of the other's index may be out of date when it is used. The two
// logs are history variables; no step reads them.

module RingProtocol {
  import opened Bytes
  import opened RingLayout

  datatype Producer =
    | Idle
    | TailLoaded(minimum: nat, tail: nat)
    | Reserving(minimum: nat)
    | GapMarked(written: nat)
    | ChunkMarked(written: nat)

  datatype Consumer =
    | Resting
    | HeadLoaded(head: nat, seen: nat)
    | GapSkipped
    | Holding(off: nat, len: nat)

  datatype System = System(
    ring: Ring,
    producer: Producer,
    consumer: Consumer,
    committed: seq<seq<byte>>,
    received: seq<seq<byte>>)

  datatype Step =
    // varchunk_write_request_max: load both indexes, then decide
    | LoadTail(minimum: nat)
    | Decide
    // the producer fills its reservation, in any order
    | Fill(at: nat, value: byte)
    // varchunk_write_advance: headers first, the head last
    | Commit(written: nat)
    | FinishHeaders
    | PublishHead
    // varchunk_read_request: load both indexes, then inspect the first element
    | LoadHead
    | Inspect
    | TakeFront
    // varchunk_read_advance
    | Release

  /**
   * When a step can happen. The protocol asks the producer to commit at most once for
   * each successful request, within the bound that counts the header, and asks the
   * consumer to release only what it holds. Requests may be repeated.
   */
  predicate Enabled(s: System, step: Step) {
    match step
    case LoadTail(_) => s.producer.Idle? || s.producer.Reserving?
    case Decide => s.producer.TailLoaded?
    case Fill(at, _) =>
      s.producer.Reserving? && s.ring.Start() + HEADER <= at < s.ring.Start() + s.ring.rsvd
    case Commit(written) =>
      s.producer.Reserving? && written <= s.ring.rsvd && HEADER + Pad(written) <= s.ring.rsvd
    case FinishHeaders => s.producer.GapMarked?
    case PublishHead => s.producer.ChunkMarked?
    case LoadHead => s.consumer.Resting? || s.consumer.Holding?
    case Inspect => s.consumer.HeadLoaded?
    case TakeFront => s.consumer.GapSkipped?
    case Release => s.consumer.Holding?
  }

  // ----- The invariant -----

  ghost predicate ProducerInv(s: System)
    requires s.ring.Shape()
  {
    var r := s.ring;
    match s.producer
    case Idle => true
    case TailLoaded(_, tail) => EarlierTail(r, tail)
    case Reserving(minimum) => r.Reserved() && 2 * HEADER + Pad(minimum) <= r.rsvd
    case GapMarked(written) =>
      && r.Reserved() && r.gapd > 0 && GapHeader(r)
      && written <= r.rsvd && HEADER + Pad(written) <= r.rsvd
    case ChunkMarked(written) => Prepared(r, written)
  }

  /** The end of the buffer from head on is marked as a gap. */
  ghost predicate GapHeader(r: Ring) {
    r.head + HEADER <= |r.mem| && HEADER + Word(r.mem, r.head) == r.gapd && IsGap(r.mem, r.head)
  }

  /** The headers of the chunk, and of the gap before it if there is one, are in place. */
  ghost predicate Prepared(r: Ring, written: nat)
    requires r.Shape()
  {
    && r.Reserved() && (r.gapd > 0 ==> GapHeader(r))
    && written <= r.rsvd && HEADER + Pad(written) <= r.rsvd
    && Word(r.mem, r.Start()) == written && !IsGap(r.mem, r.Start())
  }

  ghost predicate ConsumerInv(s: System)
    requires s.ring.Shape()
  {
    var r := s.ring;
    match s.consumer
    case Resting => true
    case HeadLoaded(head, seen) =>
      && head < |r.mem| && Dist(r.tail, head, |r.mem|) <= r.Used() && seen <= |s.committed|
      && Chain(r.mem, r.tail, Dist(r.tail, head, |r.mem|), s.committed, |s.received|, seen)
    case GapSkipped =>
      r.tail == 0 && 0 < r.Used() && HEADER <= |r.mem| && !IsGap(r.mem, 0)
    case Holding(off, len) =>
      && 0 < r.Used() && off == r.tail + HEADER <= |r.mem|
      && len == Word(r.mem, r.tail) && !IsGap(r.mem, r.tail)
  }

  ghost predicate Inv(s: System) {
    && s.ring.Holds(s.committed, |s.received|)
    && s.received <= s.committed
    && ProducerInv(s)
    && ConsumerInv(s)
  }

  // ----- The steps -----

  function CommitHeaders(s: System, written: nat): System
    requires Inv(s) && Enabled(s, Commit(written))
  {
    hide Inv, Enabled;
    HeadersFit(s, written);
    if s.ring.gapd > 0 then s.(ring := MarkGap(s.ring), producer := GapMarked(written))
    else s.(ring := MarkChunk(s.ring, written), producer := ChunkMarked(written))
  }

  lemma HeadersFit(s: System, written: nat)
    requires Inv(s) && Enabled(s, Commit(written))
    ensures written < 0x1_0000_0000 && s.ring.Start() + HEADER <= |s.ring.mem|
    ensures s.ring.gapd > 0 ==> HEADER <= s.ring.gapd <= 0x1_0000_0000 && s.ring.head + HEADER <= |s.ring.mem|
  {
    hide Pad, Word, Chain, Element;
  }

  function Publish(s: System): System
    requires Inv(s) && Enabled(s, PublishHead)
  {
    WrittenFits(s.ring, s.producer.written);
    var at := s.ring.Start() + HEADER;
    s.(ring := StoreHead(s.ring, s.producer.written), producer := Idle,
       committed := s.committed + [s.ring.mem[at..at + s.producer.written]])
  }

  function InspectFirst(s: System): System
    requires Inv(s) && Enabled(s, Inspect)
  {
    var r := s.ring;
    var space := Dist(r.tail, s.consumer.head, |r.mem|);
    if space == 0 then
      s.(consumer := Resting)
    else if r.tail + space > |r.mem| && IsGap(r.mem, r.tail) then
      s.(ring := StoreTail(r, |r.mem| - r.tail), consumer := GapSkipped)
    else
      s.(consumer := Holding(r.tail + HEADER, Word(r.mem, r.tail)))
  }

  function ReleaseHeld(s: System): System
    requires Inv(s) && Enabled(s, Release)
  {
    HeldBytes(s);
    var chunk := s.ring.mem[s.consumer.off..s.consumer.off + s.consumer.len];
    s.(ring := StoreTail(s.ring, HEADER + Pad(Word(s.ring.mem, s.ring.tail))), consumer := Resting,
       received := s.received + [chunk])
  }

  /** The state after an enabled step. */
  function Next(s: System, step: Step): System
    requires Inv(s) && Enabled(s, step)
  {
    match step
    case LoadTail(minimum) =>
      s.(producer := TailLoaded(minimum, s.ring.tail))
    case Decide =>
      var (r', off) := Reserve(s.ring, s.producer.tail, s.producer.minimum);
      s.(ring := r', producer := if off.Some? then Reserving(s.producer.minimum) else Idle)
    case Fill(at, value) =>
      s.(ring := s.ring.(mem := Put(s.ring.mem, at, [value])))
    case Commit(written) =>
      CommitHeaders(s, written)
    case FinishHeaders =>
      s.(ring := MarkChunk(s.ring, s.producer.written), producer := ChunkMarked(s.producer.written))
    case PublishHead =>
      Publish(s)
    case LoadHead =>
      s.(consumer := HeadLoaded(s.ring.head, |s.committed|))
    case Inspect =>
      InspectFirst(s)
    case TakeFront =>
      s.(consumer := Holding(HEADER, Word(s.ring.mem, 0)))
    case Release =>
      ReleaseHeld(s)
  }

  /** The bytes that the consumer holds are the oldest chunk not yet received. */
  lemma HeldBytes(s: System)
    requires Inv(s) && s.consumer.Holding?
    ensures s.consumer.off + s.consumer.len <= |s.ring.mem| && |s.received| < |s.committed|
    ensures s.ring.mem[s.consumer.off..s.consumer.off + s.consumer.len] == s.committed[|s.received|]
  {
    hide Pad;
  }

  // ----- Every step keeps the invariant -----

  /** Stores outside the unread bytes are invisible to the consumer. */
  lemma InvisibleStores(s: System, mem': seq<byte>)
    requires Inv(s) && SameUnread(s.ring.mem, mem', s.ring.tail, s.ring.Used())
    ensures var s' := s.(ring := s.ring.(mem := mem'));
      s'.ring.Holds(s.committed, |s.received|) && ConsumerInv(s')
  {
    hide Pad, Word, Payload;
    var r := s.ring;
    ChainFrame(r.mem, mem', r.tail, r.Used(), s.committed, |s.received|, |s.committed|);
    match s.consumer
    case HeadLoaded(head, seen) =>
      ChainFrame(r.mem, mem', r.tail, Dist(r.tail, head, |r.mem|), s.committed, |s.received|, seen);
    case Resting =>
    case _ =>
      ElementFrame(r.mem, mem', r.tail, r.Used());
  }

  lemma StoreInReservation(s: System, at: nat, bs: seq<byte>)
    requires Inv(s) && s.ring.Reserved()
    requires || s.ring.Start() <= at <= at + |bs| <= s.ring.Start() + s.ring.rsvd
             || s.ring.head <= at <= at + |bs| <= s.ring.head + s.ring.gapd
    ensures at + |bs| <= |s.ring.mem|
    ensures SameUnread(s.ring.mem, Put(s.ring.mem, at, bs), s.ring.tail, s.ring.Used())
  {
    forall i | at <= i < at + |bs|
      ensures i < |s.ring.mem| && Dist(s.ring.tail, i, |s.ring.mem|) >= s.ring.Used()
    {
      ReservedIsFree(s.ring, i);
    }
  }

  lemma FillInv(s: System, at: nat, value: byte)
    requires Inv(s) && Enabled(s, Fill(at, value))
    ensures Inv(Next(s, Fill(at, value)))
  {
    hide Pad, Word, Payload, Chain;
    StoreInReservation(s, at, [value]);
    InvisibleStores(s, Put(s.ring.mem, at, [value]));
  }

  lemma StoredHeader(mem: seq<byte>, at: nat, size: word32, gap: word32)
    requires at + HEADER <= |mem|
    ensures Word(Put(mem, at, Header(size, gap)), at) == size
    ensures Word(Put(mem, at, Header(size, gap)), at + 4) == gap
  {
    var mem' := Put(mem, at, Header(size, gap));
    assert mem'[at..at + 4] == Be32(size) && mem'[at + 4..at + 8] == Be32(gap);
    Be32RoundTrip(size);
    Be32RoundTrip(gap);
  }

  /** Header stores go where the consumer does not look, and say what they should. */
  lemma GapHeaderStored(s: System)
    requires Inv(s) && s.ring.Reserved() && s.ring.gapd > 0
    ensures var s' := s.(ring := MarkGap(s.ring));
      s'.ring.Holds(s.committed, |s.received|) && ConsumerInv(s') && GapHeader(s'.ring)
  {
    hide Chain, Header, ConsumerInv, ProducerInv, Put, SameUnread, Word, Ring.Reserved;
    var r := s.ring;
    GapBounds(r);
    StoreInReservation(s, r.head, Header(r.gapd - HEADER, 1));
    InvisibleStores(s, Put(r.mem, r.head, Header(r.gapd - HEADER, 1)));
    StoredHeader(r.mem, r.head, r.gapd - HEADER, 1);
  }

  lemma GapBounds(r: Ring)
    requires r.Shape() && r.Reserved() && r.gapd > 0
    ensures HEADER <= r.gapd <= 0x1_0000_0000 && r.head + HEADER <= |r.mem|
  {}

  lemma ChunkHeaderStored(s: System, written: nat)
    requires Inv(s) && s.ring.Reserved() && written <= s.ring.rsvd
    ensures var s' := s.(ring := MarkChunk(s.ring, written));
      s'.ring.Holds(s.committed, |s.received|) && ConsumerInv(s')
  {
    hide Pad, Chain, Payload, Element, Header, Word;
    var r := s.ring;
    StoreInReservation(s, r.Start(), Header(written, 0));
    InvisibleStores(s, Put(r.mem, r.Start(), Header(written, 0)));
  }

  lemma ChunkHeaderReads(r: Ring, written: nat)
    requires r.Shape() && r.Reserved() && written <= r.rsvd
    ensures var r' := MarkChunk(r, written);
      && Word(r'.mem, r.Start()) == written && !IsGap(r'.mem, r.Start())
      && (r.gapd > 0 && GapHeader(r) ==> GapHeader(r'))
  {
    hide Header, Put, Word, Pad;
    StoredHeader(r.mem, r.Start(), written, 0);
    if r.gapd > 0 && GapHeader(r) {
      WordOutside(r.mem, r.Start(), Header(written, 0), r.head);
      WordOutside(r.mem, r.Start(), Header(written, 0), r.head + 4);
    }
  }

  lemma WordOutside(mem: seq<byte>, at: nat, bs: seq<byte>, word: nat)
    requires at + |bs| <= |mem| && word + 4 <= |mem| && (word + 4 <= at || at + |bs| <= word)
    ensures Word(Put(mem, at, bs), word) == Word(mem, word)
  {
    hide Put;
    assert Put(mem, at, bs)[word..word + 4] == mem[word..word + 4];
  }

  lemma CommitInv(s: System, written: nat)
    requires Inv(s) && Enabled(s, Commit(written))
    ensures Inv(Next(s, Commit(written)))
  {
    hide Pad, Chain, Payload, Element, Word, Header;
    if s.ring.gapd > 0 {
      GapHeaderStored(s);
    } else {
      ChunkHeaderStored(s, written);
      ChunkHeaderReads(s.ring, written);
    }
  }

  lemma FinishHeadersInv(s: System)
    requires Inv(s) && Enabled(s, FinishHeaders)
    ensures Inv(Next(s, FinishHeaders))
  {
    hide Pad, Chain, Payload, Element, Word, Header;
    ChunkHeaderStored(s, s.producer.written);
    ChunkHeaderReads(s.ring, s.producer.written);
  }

  /** What the producer has prepared from head on is one chunk, with or without a gap before it. */
  lemma PreparedChunk(r: Ring, written: nat, log: seq<seq<byte>>, n: nat)
    requires r.Shape() && Prepared(r, written) && n < |log|
    requires r.Start() + HEADER + written <= |r.mem|
    requires log[n] == r.mem[r.Start() + HEADER..r.Start() + HEADER + written]
    ensures Chain(r.mem, r.head, r.gapd + (HEADER + Pad(written)), log, n, n + 1)
  {
    var padded := Pad(written);
    PadRoundsUp(written);
    hide Pad, Word, Chain;
    if r.gapd > 0 {
      GapThenChunk(r.mem, r.head, written, padded, log, n);
    } else {
      SingleChunk(r.mem, r.head, written, padded, log, n);
    }
  }

  lemma PublishedChain(r: Ring, written: nat, log: seq<seq<byte>>, from: nat, chunk: seq<byte>)
    requires r.Holds(log, from) && Prepared(r, written) && r.Start() + HEADER + written <= |r.mem|
    requires chunk == r.mem[r.Start() + HEADER..r.Start() + HEADER + written]
    ensures Chain(r.mem, r.tail, r.Used() + (r.gapd + (HEADER + Pad(written))), log + [chunk], from, |log| + 1)
  {
    hide Pad, Word, Chain;
    var padded := Pad(written);
    ChainLongerLog(r.mem, r.tail, r.Used(), log, [chunk], from, |log|);
    PreparedChunk(r, written, log + [chunk], |log|);
    ChainConcat(r.mem, r.tail, r.Used(), r.gapd + (HEADER + padded), log + [chunk], from, |log|, |log| + 1);
  }

  /** Publishing the head adds exactly the prepared chunk to the unread ones. */
  lemma PublishHeadInv(s: System)
    requires Inv(s) && Enabled(s, PublishHead)
    ensures Inv(Next(s, PublishHead))
  {
    hide ConsumerInv, Pad, Word, Chain, Prepared;
    PublishKeepsConsumer(s);
    PublishedRing(s);
  }

  lemma WrittenFits(r: Ring, written: nat)
    requires r.Shape() && r.Reserved() && written <= r.rsvd && HEADER + Pad(written) <= r.rsvd
    ensures r.Start() + HEADER + written <= |r.mem|
  {
    PadRoundsUp(written);
  }

  lemma PublishedRing(s: System)
    requires Inv(s) && Enabled(s, PublishHead)
    ensures Publish(s).ring.Holds(Publish(s).committed, |s.received|)
  {
    hide ConsumerInv, Pad, Word, Chain;
    var r, written := s.ring, s.producer.written;
    CommitAdvances(r, written);
    WrittenFits(r, written);
    PublishedChain(r, written, s.committed, |s.received|,
                   r.mem[r.Start() + HEADER..r.Start() + HEADER + written]);
  }

  lemma PublishKeepsConsumer(s: System)
    requires Inv(s) && Enabled(s, PublishHead)
    ensures var s' := Publish(s);
      s'.ring.Shape() && ConsumerInv(s')
  {
    hide Pad, Word, Chain;
    var r, s' := s.ring, Publish(s);
    CommitAdvances(r, s.producer.written);
    if s.consumer.HeadLoaded? {
      ChainLongerLog(r.mem, r.tail, Dist(r.tail, s.consumer.head, |r.mem|), s.committed,
                     s'.committed[|s.committed|..], |s.received|, s.consumer.seen);
    }
  }

  lemma LoadHeadInv(s: System)
    requires Inv(s) && Enabled(s, LoadHead)
    ensures Inv(Next(s, LoadHead))
  {
    hide Pad, Payload, Element, Word, Chain;
  }

  lemma LoadTailInv(s: System, minimum: nat)
    requires Inv(s) && Enabled(s, LoadTail(minimum))
    ensures Inv(Next(s, LoadTail(minimum)))
  {
    hide Pad, Payload, Element, Word, Chain;
  }

  lemma DecideInv(s: System)
    requires Inv(s) && Enabled(s, Decide)
    ensures Inv(Next(s, Decide))
  {
    ReserveIsSafe(s.ring, s.producer.tail, s.producer.minimum);
    hide Pad, Payload, Element, Word, Chain, Reserve;
  }

  lemma TailMoves(s: System, len: nat)
    requires Inv(s) && 0 < len <= s.ring.Used() && len % 8 == 0
    ensures var r' := StoreTail(s.ring, len);
      r'.Shape() && r'.Used() == s.ring.Used() - len && ProducerInv(s.(ring := r'))
  {
    hide Pad, Word, Chain, Ring.Reserved, EarlierTail;
    ConsumerMoves(s.ring, len);
    if s.producer.TailLoaded? {
      EarlierTailStays(s.ring, len, s.producer.tail);
    }
  }

  /** Whatever the consumer finds behind a stale head, it ends up at a whole chunk. */
  lemma InspectInv(s: System)
    requires Inv(s) && Enabled(s, Inspect)
    ensures Inv(Next(s, Inspect))
  {
    hide Pad, Payload, Word, Ring.Reserved, EarlierTail, Prepared, GapHeader;
    var r := s.ring;
    var space := Dist(r.tail, s.consumer.head, |r.mem|);
    if 0 < space {
      if r.tail + space <= |r.mem| {
        ContiguousStartsWithChunk(r.mem, r.tail, space, s.committed, |s.received|, s.consumer.seen);
      } else if IsGap(r.mem, r.tail) {
        GapIsFollowedByChunk(r.mem, r.tail, r.Used(), s.committed, |s.received|, |s.committed|);
        TailMoves(s, |r.mem| - r.tail);
      }
    }
  }

  lemma TakeFrontInv(s: System)
    requires Inv(s) && Enabled(s, TakeFront)
    ensures Inv(Next(s, TakeFront))
  {
    hide Pad, Payload, Word, Chain;
  }

  lemma ReleaseInv(s: System)
    requires Inv(s) && Enabled(s, Release)
    ensures Inv(Next(s, Release))
  {
    hide Pad, Payload, Word, Chain, Element, Ring.Reserved, EarlierTail, Prepared, GapHeader;
    HeldBytes(s);
    HeldElement(s);
    TailMoves(s, ElementLength(s.ring.mem, s.ring.tail));
  }

  /** Behind the held chunk the elements are those of the chunks that come after it. */
  lemma HeldElement(s: System)
    requires Inv(s) && s.consumer.Holding?
    ensures s.ring.tail + HEADER <= |s.ring.mem| && s.ring.head < |s.ring.mem| && s.ring.tail < |s.ring.mem|
    ensures var r, len := s.ring, ElementLength(s.ring.mem, s.ring.tail);
      && 0 < len <= r.Used() && len % 8 == 0
      && Chain(r.mem, NextElement(r.mem, r.tail), r.Used() - len, s.committed, |s.received| + 1, |s.committed|)
  {
    PadRoundsUp(Word(s.ring.mem, s.ring.tail));
    hide Pad, Payload, Word, ProducerInv;
  }

  lemma StepInv(s: System, step: Step)
    requires Inv(s) && Enabled(s, step)
    ensures Inv(Next(s, step))
  {
    hide Inv, Next;
    match step
    case LoadTail(minimum) => LoadTailInv(s, minimum);
    case Decide => DecideInv(s);
    case Fill(at, value) => FillInv(s, at, value);
    case Commit(written) => CommitInv(s, written);
    case FinishHeaders => FinishHeadersInv(s);
    case PublishHead => PublishHeadInv(s);
    case LoadHead => LoadHeadInv(s);
    case Inspect => InspectInv(s);
    case TakeFront => TakeFrontInv(s);
    case Release => ReleaseInv(s);
  }

  // ----- Whole runs -----

  /** A ring just made by varchunk_new, in a buffer of any content; no reservation yet. */
  ghost predicate Initial(s: System) {
    && IsPow2(|s.ring.mem|) && |s.ring.mem| <= 0x8000_0000
    && s.ring.head == 0 && s.ring.tail == 0
    && s.producer.Idle? && s.consumer.Resting?
    && s.committed == [] && s.received == []
  }

  lemma InitialInv(s: System)
    requires Initial(s)
    ensures Inv(s)
  {
    var k: nat :| |s.ring.mem| == Bits.Pow2(k);
    Pow2Alignment(k);
  }

  /** Every step of the run is enabled when it happens. */
  ghost predicate Run(s: System, steps: seq<Step>)
    requires Inv(s)
    decreases |steps|
  {
    steps == [] || (
      && Enabled(s, steps[0])
      && (StepInv(s, steps[0]); Run(Next(s, steps[0]), steps[1..])))
  }

  /** The state at the end of a run. */
  ghost function After(s: System, steps: seq<Step>): System
    requires Inv(s) && Run(s, steps)
    decreases |steps|
  {
    if steps == [] then s
    else
      StepInv(s, steps[0]);
      After(Next(s, steps[0]), steps[1..])
  }

  /** So the invariant holds in every reachable state. */
  lemma {:induction false} RunInv(s: System, steps: seq<Step>)
    requires Inv(s) && Run(s, steps)
    ensures Inv(After(s, steps))
    decreases |steps|
  {
    hide Inv, Next, Enabled;
    if steps != [] {
      StepInv(s, steps[0]);
      RunInv(Next(s, steps[0]), steps[1..]);
    }
  }

  /** First in, first out: in every interleaving, what arrives is what was committed, in order and unchanged. */
  lemma Fifo(s: System, steps: seq<Step>)
    requires Initial(s) && Inv(s) && Run(s, steps)
    ensures After(s, steps).received <= After(s, steps).committed
    ensures var s' := After(s, steps);
      s'.consumer.Holding? ==>
        && s'.consumer.off + s'.consumer.len <= |s'.ring.mem| && |s'.received| < |s'.committed|
        && s'.ring.mem[s'.consumer.off..s'.consumer.off + s'.consumer.len] == s'.committed[|s'.received|]
  {
    var s' := After(s, steps);
    RunInv(s, steps);
    if s'.consumer.Holding? {
      HeldBytes(s');
    }
  }

  /** A granted request is inside the buffer, is large enough, and is free of unread bytes. */
  lemma ReservationIsExclusive(s: System, i: nat)
    requires Inv(s) && s.producer.Reserving?
    requires s.ring.Start() <= i < s.ring.Start() + s.ring.rsvd || s.ring.head <= i < s.ring.head + s.ring.gapd
    ensures s.ring.Start() + 2 * HEADER + Pad(s.producer.minimum) <= |s.ring.mem|
    ensures i < |s.ring.mem| && Dist(s.ring.tail, i, |s.ring.mem|) >= s.ring.Used()
    ensures s.consumer.Holding? ==> !(s.ring.tail <= i < s.consumer.off + s.consumer.len)
  {
    ReservedIsFree(s.ring, i);
    if s.consumer.Holding? {
      HeldBytes(s);
      HeldIsUnread(s);
    }
  }

  lemma HeldIsUnread(s: System)
    requires Inv(s) && s.consumer.Holding?
    ensures s.consumer.off + s.consumer.len <= |s.ring.mem|
    ensures HEADER + s.consumer.len <= s.ring.Used()
  {
    hide Pad, Word;
  }

  predicate ProducerStep(step: Step) {
    step.LoadTail? || step.Decide? || step.Fill? || step.Commit? || step.FinishHeaders? || step.PublishHead?
  }

  predicate ConsumerStep(step: Step) {
    !ProducerStep(step)
  }

  lemma ProducerStepLeavesConsumer(s: System, step: Step)
    requires Inv(s) && Enabled(s, step) && ProducerStep(step)
    ensures Next(s, step).consumer == s.consumer && Next(s, step).received == s.received
    ensures s.committed <= Next(s, step).committed
  {
    hide Inv, Put, Reserve, MarkGap, MarkChunk, StoreHead;
  }

  /** Whatever the producer does meanwhile, a chunk handed to the reader stays the same until it is released. */
  lemma {:induction false} HeldChunkIsStable(s: System, steps: seq<Step>)
    requires Inv(s) && Run(s, steps) && s.consumer.Holding?
    requires forall i :: 0 <= i < |steps| ==> ProducerStep(steps[i])
    ensures var s', off, len := After(s, steps), s.consumer.off, s.consumer.len;
      && s'.consumer == s.consumer && s'.received == s.received && s.committed <= s'.committed
      && off + len <= |s.ring.mem| && off + len <= |s'.ring.mem|
      && s'.ring.mem[off..off + len] == s.ring.mem[off..off + len]
    decreases |steps|
  {
    HeldBytes(s);
    if steps != [] {
      StepInv(s, steps[0]);
      var s1 := Next(s, steps[0]);
      ProducerStepLeavesConsumer(s, steps[0]);
      HeldBytes(s1);
      hide Inv, Next, Enabled;
      HeldChunkIsStable(s1, steps[1..]);
    }
  }

  lemma ConsumerStepLeavesProducer(s: System, step: Step)
    requires Inv(s) && Enabled(s, step) && ConsumerStep(step)
    ensures var s' := Next(s, step);
      && s'.producer == s.producer && s'.committed == s.committed
      && s'.ring == s.ring.(tail := s'.ring.tail)
  {
    hide Inv, Put, Reserve;
  }

  /** Whatever the consumer does meanwhile, a reservation stays where it is, with its content, and stays free. */
  lemma {:induction false} ReservationIsStable(s: System, steps: seq<Step>)
    requires Inv(s) && Run(s, steps) && s.producer.Reserving?
    requires forall i :: 0 <= i < |steps| ==> ConsumerStep(steps[i])
    ensures var s' := After(s, steps);
      && Inv(s') && s'.producer == s.producer && s'.committed == s.committed
      && s'.ring == s.ring.(tail := s'.ring.tail) && s'.ring.Reserved()
    decreases |steps|
  {
    hide Next, Enabled, Ring.Shape, Ring.Reserved, Ring.Holds, ConsumerInv;
    if steps != [] {
      StepInv(s, steps[0]);
      ConsumerStepLeavesProducer(s, steps[0]);
      ReservationIsStable(Next(s, steps[0]), steps[1..]);
    }
  }

  lemma UnreadIffUsed(s: System)
    requires Inv(s)
    ensures |s.received| < |s.committed| <==> 0 < s.ring.Used()
  {
    hide Pad, Word, Payload;
    if 0 < s.ring.Used() && IsGap(s.ring.mem, s.ring.tail) {
      GapIsFollowedByChunk(s.ring.mem, s.ring.tail, s.ring.Used(), s.committed, |s.received|, |s.committed|);
    }
  }

  /** A request for a chunk answers NULL exactly when the loaded head is the tail. */
  lemma InspectFindsChunk(s: System)
    requires Inv(s) && Enabled(s, Inspect)
    ensures Next(s, Inspect).consumer.Resting? <==> s.consumer.head == s.ring.tail
  {}

  /** How many steps of its own bring the consumer to its next chunk. */
  function Distance(s: System): nat {
    match s.consumer
    case HeadLoaded(head, _) => if head == s.ring.tail then 5 else 3
    case Resting => 4
    case GapSkipped => 2
    case Holding(_, _) => 1
  }

  /** Nothing is ever stuck: from every reachable state the consumer alone can receive all that was committed. */
  lemma {:induction false} Drain(s: System) returns (steps: seq<Step>)
    requires Inv(s)
    ensures Run(s, steps) && (forall i :: 0 <= i < |steps| ==> ConsumerStep(steps[i]))
    ensures After(s, steps).received == After(s, steps).committed == s.committed
    decreases |s.committed| - |s.received|, Distance(s)
  {
    if s.received == s.committed {
      steps := [];
    } else {
      UnreadIffUsed(s);
      var step := match s.consumer
        case Resting => LoadHead
        case HeadLoaded(_, _) => Inspect
        case GapSkipped => TakeFront
        case Holding(_, _) => Release;
      StepInv(s, step);
      DrainStep(s, step);
      hide Inv, Next, Distance;
      var rest := Drain(Next(s, step));
      steps := [step] + rest;
      assert steps[1..] == rest;
    }
  }

  lemma DrainStep(s: System, step: Step)
    requires Inv(s) && Enabled(s, step) && ConsumerStep(step) && 0 < s.ring.Used()
    requires s.received != s.committed
    ensures var s' := Next(s, step);
      && s'.committed == s.committed
      && (step.Release? ==> |s'.received| == |s.received| + 1 <= |s.committed|)
      && (!step.Release? && (step.LoadHead? ==> s.consumer.Resting?) ==>
            s'.received == s.received && Distance(s') < Distance(s))
  {
    hide Pad, Word, Chain;
    if step.Release? {
      HeldBytes(s);
    }
  }
}
