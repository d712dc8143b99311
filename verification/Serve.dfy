// monobusd.c: from the bytes of a connection to the picture on the bus. Each round is one
// call of the stream and one beat.

module Serve {
  import opened Bytes
  import opened Slip
  import opened SlipStream
  import opened SlipSession
  import opened Receiving
  import opened Osc
  import opened OscBundle
  import opened Compositor
  import opened Canvas
  import opened Scheduler
  import opened Beat
  import RingLayout
  import RingProtocol
  import Varchunk
  import Wire
  import MonoBus

  /** What the rounds make of the packets, each of which is in the round in which its frame ends. */
  function Rounds(w: World, ps: seq<seq<byte>>, start: nat, inputs: seq<seq<byte>>, times: seq<Time>): World
    requires |times| == |inputs|
    decreases |inputs|
  {
    if inputs == [] then w
    else
      var n := start + |inputs[0]|;
      var j := WholeIn(ps, n);
      Rounds(AfterBeat(w, ps[..j], times[0]), ps[j..], |Partial(ps, n)|, inputs[1..], times[1..])
  }

  /** In no round do the packets need more than half of the ring, or the pieces more than the receive buffer. */
  ghost predicate Moderate(ps: seq<seq<byte>>, start: nat, inputs: seq<seq<byte>>, ring: nat, rx: nat)
    decreases |inputs|
  {
    inputs == [] || (
      var n := start + |inputs[0]|;
      var j := WholeIn(ps, n);
      && |inputs[0]| < rx && Elements(ps[..j]) + RingLayout.HEADER <= ring / 2
      && Moderate(ps[j..], |Partial(ps, n)|, inputs[1..], ring, rx))
  }

  /**
   * One call of the stream, if anything was received: all packets whose frames end in the
   * piece are in the ring afterwards, behind those that were there, provided it has room.
   */
  method TakeIn(receiver: Receiver, ring: Varchunk.Varchunk, input: seq<byte>, ghost ps: seq<seq<byte>>,
                ghost budget: nat)
    requires receiver.Valid() && ring.Valid() && (ring.producer.Idle? || ring.producer.Reserving?)
    requires ring.buf != receiver.rx && |input| <= receiver.rx.Length - receiver.rxOff
    requires ring.Sys().ring.Shape() && RingLayout.Roomy(ring.Sys().ring, budget)
    requires WholeIn(ps, receiver.rxOff) == 0 && Keeps(receiver.Kept()) == receiver.Kept()
    requires NonEmpty(ps) && receiver.rxOff + |input| <= |Frames(ps)|
    requires receiver.Kept() + input == Frames(ps)[..receiver.rxOff + |input|]
    requires Elements(ps[..WholeIn(ps, receiver.rxOff + |input|)]) + RingLayout.HEADER <= budget
    modifies receiver, receiver.rx, ring, ring.buf
    ensures receiver.Valid() && ring.Valid() && (ring.producer.Idle? || ring.producer.Reserving?)
    ensures ring.consumer == old(ring.consumer)
    ensures ring.Contents() == old(ring.Contents()) + ps[..WholeIn(ps, old(receiver.rxOff) + |input|)]
    ensures receiver.Kept() == Keeps(Partial(ps, old(receiver.rxOff) + |input|))
  {
    hide Dispatch, WholeIn, Partial, Frames, Elements, RefusedFor, RingLayout.Roomy, RingProtocol.Inv,
         RingLayout.IsPow2;
    ghost var n := receiver.rxOff + |input|;
    if input == [] {
      NothingTaken(ps, receiver.Kept());
    } else {
      GrantedCall(ps, n, Always);
      var delivered, grants := receiver.Receive(input, ring, budget);
    }
  }

  lemma NothingTaken(ps: seq<seq<byte>>, kept: seq<byte>)
    requires NonEmpty(ps) && |kept| <= |Frames(ps)| && kept + [] == Frames(ps)[..|kept|] && WholeIn(ps, |kept|) == 0
    ensures Partial(ps, |kept|) == kept && forall more: seq<seq<byte>> :: more + ps[..0] == more
  {
    FirstBytes(ps, |kept|);
    hide WholeIn, Partial;
    assert ps[..0] == [] && kept + [] == kept;
    assert Frames(ps[..0]) + Partial(ps, |kept|) == Partial(ps, |kept|);
  }

  lemma NothingBefore(packets: seq<seq<byte>>)
    ensures [] + packets == packets
  {}

  lemma EmptyRingIsRoomy(s: RingProtocol.System)
    requires RingProtocol.Inv(s) && s.committed[|s.received|..] == [] && |s.ring.mem| >= 16
    ensures s.ring.Shape() && RingLayout.Roomy(s.ring, |s.ring.mem| / 2)
  {
    RingProtocol.UnreadIffUsed(s);
    RingLayout.EmptyIsRoomy(s.ring);
  }

  /** One call of the stream and one beat. */
  method OneRound(receiver: Receiver, ring: Varchunk.Varchunk, canvas: Canvas, schedule: Schedule,
                  input: seq<byte>, now: Time, step: nat, bitmap: array<byte>, dst: array<byte>,
                  ghost ps: seq<seq<byte>>) returns (sent: seq<byte>, next: Time)
    requires receiver.Valid() && ring.Valid() && (ring.producer.Idle? || ring.producer.Reserving?)
    requires ring.consumer.Resting? && ring.Contents() == [] && canvas.Valid() && schedule.Valid() &&
      AllSound(schedule.Pending())
    requires bitmap.Length == Wire.LENGTH_SER && dst.Length == 512 && 0 <= now.nsec < NSECS
    requires dst != bitmap && dst != ring.buf && bitmap != ring.buf
    requires ring.buf != receiver.rx && dst != receiver.rx && bitmap != receiver.rx
    requires NonEmpty(ps) && |input| <= receiver.rx.Length - receiver.rxOff
    requires WholeIn(ps, receiver.rxOff) == 0 && Keeps(receiver.Kept()) == receiver.Kept()
    requires receiver.rxOff + |input| <= |Frames(ps)|
    requires receiver.Kept() + input == Frames(ps)[..receiver.rxOff + |input|]
    requires Elements(ps[..WholeIn(ps, receiver.rxOff + |input|)]) + RingLayout.HEADER <= ring.size / 2
    requires AllAccepted(ps[..WholeIn(ps, receiver.rxOff + |input|)])
    modifies receiver, receiver.rx, ring, ring.buf, canvas, canvas.pixels, schedule, schedule.nodes, bitmap, dst
    ensures receiver.Valid() && ring.Valid() && (ring.producer.Idle? || ring.producer.Reserving?)
    ensures ring.consumer.Resting? && ring.Contents() == [] && canvas.Valid() && schedule.Valid() &&
      AllSound(schedule.Pending())
    ensures receiver.Kept() == Keeps(Partial(ps, old(receiver.rxOff) + |input|))
    ensures World(canvas.history, schedule.Pending())
      == AfterBeat(old(World(canvas.history, schedule.Pending())), ps[..WholeIn(ps, old(receiver.rxOff) + |input|)],
        now)
    ensures Wire.Rotated(bitmap[..], canvas.history) && sent == MonoBus.OnTheBus(Wire.Round(bitmap[..]))
    ensures 0 <= next.nsec < NSECS && Nanoseconds(next) == Nanoseconds(now) + step
    ensures forall i :: 0 <= i < |schedule.nodes| ==>
      schedule.nodes[i] in old(schedule.nodes) || fresh(schedule.nodes[i])
  {
    hide AllAccepted, AllSound, Frames, WholeIn, Partial, Keeps, Elements, AfterBeat, Linked, Jobs,
         Canvas.Valid, Wire.Rotated, MonoBus.OnTheBus, RingProtocol.Inv, RingLayout.IsPow2;
    EmptyRingIsRoomy(ring.Sys());
    NothingBefore(ps[..WholeIn(ps, receiver.rxOff + |input|)]);
    TakeIn(receiver, ring, input, ps, ring.size / 2);
    sent, next := Beat.Beat(ring, canvas, schedule, now, step, bitmap, dst);
  }

  /**
   * Rounds until the connection is idle: nothing is lost on the way, and the picture on
   * the bus is that of all commands that were drawn, whatever the pieces.
   */
  method ServeAll(receiver: Receiver, ring: Varchunk.Varchunk, canvas: Canvas, schedule: Schedule,
                  inputs: seq<seq<byte>>, now: Time, step: nat, bitmap: array<byte>, dst: array<byte>,
                  ghost ps: seq<seq<byte>>) returns (sent: seq<byte>, ghost times: seq<Time>)
    requires receiver.Valid() && ring.Valid() && (ring.producer.Idle? || ring.producer.Reserving?)
    requires ring.consumer.Resting? && ring.Contents() == [] && canvas.Valid() && schedule.Valid() &&
      AllSound(schedule.Pending())
    requires bitmap.Length == Wire.LENGTH_SER && dst.Length == 512 && 0 <= now.nsec < NSECS
    requires dst != bitmap && dst != ring.buf && bitmap != ring.buf
    requires ring.buf != receiver.rx && dst != receiver.rx && bitmap != receiver.rx
    requires Ready(ps, receiver.Kept(), inputs) && Moderate(ps, receiver.rxOff, inputs, ring.size, receiver.rx.Length)
    modifies receiver, receiver.rx, ring, ring.buf, canvas, canvas.pixels, schedule, schedule.nodes, bitmap, dst
    ensures receiver.Valid() && receiver.Kept() == [] && ring.Valid() && ring.Contents() == []
    ensures canvas.Valid() && schedule.Valid() && |times| == |inputs|
    ensures forall i :: 0 <= i < |times| ==>
      0 <= times[i].nsec < NSECS && Nanoseconds(times[i]) == Nanoseconds(now) + i * step
    ensures World(canvas.history, schedule.Pending())
      == Rounds(old(World(canvas.history, schedule.Pending())), ps, old(receiver.rxOff), inputs, times)
    ensures inputs == [] ==> bitmap[..] == old(bitmap[..])
    ensures inputs != [] ==>
      Wire.Rotated(bitmap[..], canvas.history) && sent == MonoBus.OnTheBus(Wire.Round(bitmap[..]))
    decreases |inputs|
  {
    hide AllAccepted, AllSound, Frames, Joined, WholeIn, Partial, Ready, Keeps, Elements, AfterBeat, Linked, Jobs,
         Canvas.Valid, Wire.Rotated, MonoBus.OnTheBus, RingProtocol.Inv, RingLayout.IsPow2;
    sent, times := [], [];
    ReadyMeans(ps, receiver.Kept(), inputs);
    if inputs != [] {
      ghost var n := receiver.rxOff + |inputs[0]|;
      ghost var j := WholeIn(ps, n);
      var next;
      sent, next := OneRound(receiver, ring, canvas, schedule, inputs[0], now, step, bitmap, dst, ps);
      var more;
      ghost var later;
      more, later := ServeAll(receiver, ring, canvas, schedule, inputs[1..], next, step, bitmap, dst, ps[j..]);
      times := [now] + later;
      if |inputs| > 1 {
        sent := more;
      }
      Later(now, next, step, later);
    }
  }

  /** The rest of a connection that delivers all its packets: what is kept, and the pieces to come. */
  ghost predicate Ready(ps: seq<seq<byte>>, kept: seq<byte>, inputs: seq<seq<byte>>) {
    && Plain(ps) && AllAccepted(ps) && kept + Joined(inputs) == Frames(ps)
    && WholeIn(ps, |kept|) == 0 && |kept| <= 1 && (inputs == [] ==> kept == [])
    && SafeCuts(ps, |kept|, inputs)
  }

  /** A new connection. */
  lemma ReadyAtFirst(ps: seq<seq<byte>>, inputs: seq<seq<byte>>)
    requires Plain(ps) && AllAccepted(ps) && Joined(inputs) == Frames(ps) && SafeCuts(ps, 0, inputs)
    ensures Ready(ps, [], inputs)
  {
    NothingWhole(ps);
    assert [] + Joined(inputs) == Joined(inputs);
  }

  lemma ReadyMeans(ps: seq<seq<byte>>, kept: seq<byte>, inputs: seq<seq<byte>>)
    requires Ready(ps, kept, inputs)
    ensures NonEmpty(ps) && |kept| <= 1 && (inputs == [] ==> kept == [])
    ensures WholeIn(ps, |kept|) == 0 && Keeps(kept) == kept
    ensures inputs != [] ==>
      var n := |kept| + |inputs[0]|;
      && n <= |Frames(ps)| && kept + inputs[0] == Frames(ps)[..n]
      && AllAccepted(ps[..WholeIn(ps, n)]) && Keeps(Partial(ps, n)) == Partial(ps, n)
      && Ready(ps[WholeIn(ps, n)..], Partial(ps, n), inputs[1..])
  {
    hide Frames, Joined, WholeIn, Partial, Keeps, AllAccepted, SafeCut, Plain;
    PlainIsNonEmpty(ps);
    KeepsOne(kept);
    if inputs != [] {
      var n := |kept| + |inputs[0]|;
      FirstPiece(ps, kept, inputs);
      NextRound(ps, n, inputs);
      SomeAccepted(ps, WholeIn(ps, n));
    }
  }

  lemma PlainIsNonEmpty(ps: seq<seq<byte>>)
    requires Plain(ps)
    ensures NonEmpty(ps)
  {}

  lemma KeepsOne(t: seq<byte>)
    requires |t| <= 1
    ensures Keeps(t) == t
  {
    ScanStops([]);
  }

  lemma SomeAccepted(ps: seq<seq<byte>>, j: nat)
    requires Plain(ps) && AllAccepted(ps) && j <= |ps|
    ensures Plain(ps[j..]) && AllAccepted(ps[..j]) && AllAccepted(ps[j..])
  {
    hide Accepted;
  }

  lemma Later(now: Time, next: Time, step: nat, later: seq<Time>)
    requires 0 <= now.nsec < NSECS && Nanoseconds(next) == Nanoseconds(now) + step
    requires forall i :: 0 <= i < |later| ==>
      0 <= later[i].nsec < NSECS && Nanoseconds(later[i]) == Nanoseconds(next) + i * step
    ensures var times := [now] + later;
      forall i :: 0 <= i < |times| ==>
        0 <= times[i].nsec < NSECS && Nanoseconds(times[i]) == Nanoseconds(now) + i * step
  {
    var times := [now] + later;
    forall i | 0 <= i < |times|
      ensures 0 <= times[i].nsec < NSECS && Nanoseconds(times[i]) == Nanoseconds(now) + i * step
    {
      if i > 0 {
        assert times[i] == later[i - 1];
        assert step + (i - 1) * step == i * step;
      }
    }
  }

  /** After a round the situation is as before, for the other packets. */
  lemma NextRound(ps: seq<seq<byte>>, n: nat, inputs: seq<seq<byte>>)
    requires Plain(ps) && inputs != [] && n <= |Frames(ps)| && Frames(ps)[n..] == Joined(inputs[1..])
    requires SafeCut(ps, n) && SafeCuts(ps, n, inputs[1..])
    ensures var j, t := WholeIn(ps, n), Partial(ps, n);
      && Keeps(t) == t && |t| <= 1 && t + Joined(inputs[1..]) == Frames(ps[j..])
      && WholeIn(ps[j..], |t|) == 0 && (inputs[1..] == [] ==> t == [])
      && SafeCuts(ps[j..], |t|, inputs[1..])
  {
    hide WholeIn, Partial, Frames, Keeps, SafeCuts, SafeCut, IntactCut;
    SafeCutIsIntact(ps, n);
    IntactOrNot(ps, n);
    NextPieces(ps, n, Joined(inputs[1..]));
    CutsBehind(ps, WholeIn(ps, n), n, inputs[1..], seq(|inputs| - 1, _ => Always));
  }

  lemma IntactOrNot(ps: seq<seq<byte>>, n: nat)
    ensures IntactCut(ps, n) <==> Keeps(Partial(ps, n)) == Partial(ps, n)
    ensures SafeCut(ps, n) <==> |Partial(ps, n)| <= 1
  {}

  // ----- What clients see -----

  /** Encodings of OSC packets are packets that connections deliver, and that the daemon can handle. */
  lemma EncodedIsPlain(ps: seq<seq<byte>>, qs: seq<Packet>)
    requires AllEncode(ps, qs) && AllPlayable(AllLeaves(qs))
    ensures Plain(ps) && AllAccepted(ps)
  {
    hide IsPacket, Rooted, Playable, Accepted, AllLeaves;
    forall i | 0 <= i < |ps|
      ensures ps[i] != [] && !Special(ps[i][0]) && Accepted(ps[i])
    {
      PacketAccepted(ps, qs, i);
      PacketStarts(ps[i], qs[i]);
    }
  }

  lemma PacketStarts(bs: seq<byte>, p: Packet)
    requires IsPacket(bs, p) && Rooted(p)
    ensures bs != [] && !Special(bs[0])
  {
    match p
    case Msg(path, args) =>
      MessageIsVisited(IMMEDIATE, bs, path, args);
      MessageStarts(bs, path, args);
    case Bundle(_, _) =>
      assert bs[0] == bs[..8][0];
  }

  lemma MessageStarts(bs: seq<byte>, path: seq<byte>, args: seq<Arg>)
    requires IsMessage(bs, path, args) && path != []
    ensures bs != [] && bs[0] == path[0]
  {
    assert bs[0] == bs[..TextSize(path)][0] == TextBytes(path)[..|path|][0];
  }

  ghost predicate AllImmediate(leaves: seq<Leaf>) {
    forall i :: 0 <= i < |leaves| ==> leaves[i].timetag == IMMEDIATE
  }

  lemma {:induction false} DrawnConcat(a: seq<Leaf>, b: seq<Leaf>)
    ensures DrawnNow(a + b) == DrawnNow(a) + DrawnNow(b)
  {
    hide EffectOf;
    if b == [] {
      assert a + b == a;
    } else {
      var k := |b| - 1;
      DrawnConcat(a, b[..k]);
      assert (a + b)[..|a + b| - 1] == a + b[..k];
    }
  }

  lemma {:induction false} AllLeavesConcat(a: seq<Packet>, b: seq<Packet>)
    ensures AllLeaves(a + b) == AllLeaves(a) + AllLeaves(b)
  {
    hide Leaves;
    if b == [] {
      assert a + b == a;
    } else {
      var k := |b| - 1;
      AllLeavesConcat(a, b[..k]);
      assert (a + b)[..|a + b| - 1] == a + b[..k];
    }
  }

  lemma {:induction false} NothingDeferred(leaves: seq<Leaf>)
    requires AllImmediate(leaves)
    ensures Deferred(leaves) == []
  {
    if leaves != [] {
      NothingDeferred(leaves[..|leaves| - 1]);
    }
  }

  /** A round of immediate messages draws all of them. */
  lemma ImmediateRound(w: World, packets: seq<seq<byte>>, qs: seq<Packet>, now: Time)
    requires AllEncode(packets, qs) && AllPlayable(AllLeaves(qs)) && AllImmediate(AllLeaves(qs)) && w.waiting == []
    ensures AfterBeat(w, packets, now) == World(w.drawn + DrawnNow(AllLeaves(qs)), [])
  {
    hide AllEncode, AllPlayable, AllImmediate, AllLeaves, EventsOf, HandleAll, AllAccepted, Follows, AfterDue,
         DrawnNow, Deferred;
    PacketsHandled(w, packets, qs);
    NothingDeferred(AllLeaves(qs));
    NothingWaits(w, HandleAll(w, EventsOf(packets)), AllLeaves(qs), now);
  }

  lemma NothingWaits(w: World, w': World, leaves: seq<Leaf>, now: Time)
    requires Follows(w, w', leaves) && w.waiting == [] && Deferred(leaves) == []
    ensures AfterDue(w', now) == World(w.drawn + DrawnNow(leaves), [])
  {
    hide DrawnNow, Deferred;
    assert w'.waiting[0..] == w'.waiting;
    assert w'.drawn + [] == w'.drawn;
  }

  /**
   * From the client to the display: if all messages are immediate, the commands that are
   * drawn are exactly those of the messages that were sent, in order; neither the pieces
   * in which their bytes arrived nor the times of the rounds matter.
   */
  lemma {:induction false} ImmediateRounds(w: World, ps: seq<seq<byte>>, qs: seq<Packet>, kept: seq<byte>,
                                           inputs: seq<seq<byte>>, times: seq<Time>)
    requires AllEncode(ps, qs) && AllPlayable(AllLeaves(qs)) && AllImmediate(AllLeaves(qs)) && w.waiting == []
    requires |times| == |inputs| && NonEmpty(ps) && kept + Joined(inputs) == Frames(ps)
    requires inputs == [] ==> kept == []
    ensures Rounds(w, ps, |kept|, inputs, times) == World(w.drawn + DrawnNow(AllLeaves(qs)), [])
    decreases |inputs|
  {
    hide AllEncode, AllPlayable, AllImmediate, AllLeaves, DrawnNow, AfterBeat, Frames, Joined, WholeIn, Partial;
    if inputs == [] {
      JoinedNothing();
      NoBytesNoPackets(ps);
      NothingSent(qs, ps);
      assert w.drawn + [] == w.drawn;
    } else {
      var n := |kept| + |inputs[0]|;
      var j := WholeIn(ps, n);
      FirstPieceOf(ps, kept, inputs);
      NextPieces(ps, n, Joined(inputs[1..]));
      SomeNow(ps, qs, j);
      ImmediateRound(w, ps[..j], qs[..j], times[0]);
      var w1 := AfterBeat(w, ps[..j], times[0]);
      ImmediateRounds(w1, ps[j..], qs[j..], Partial(ps, n), inputs[1..], times[1..]);
      DrawnConcat(AllLeaves(qs[..j]), AllLeaves(qs[j..]));
      AllLeavesConcat(qs[..j], qs[j..]);
      assert qs[..j] + qs[j..] == qs;
      var a, b := DrawnNow(AllLeaves(qs[..j])), DrawnNow(AllLeaves(qs[j..]));
      assert w.drawn + a + b == w.drawn + (a + b);
    }
  }

  lemma JoinedNothing()
    ensures Joined([]) == []
  {}

  lemma FirstPieceOf(ps: seq<seq<byte>>, kept: seq<byte>, inputs: seq<seq<byte>>)
    requires inputs != [] && kept + Joined(inputs) == Frames(ps)
    ensures |kept| + |inputs[0]| <= |Frames(ps)| && Frames(ps)[|kept| + |inputs[0]|..] == Joined(inputs[1..])
    ensures Joined(inputs[1..]) == [] || inputs[1..] != []
  {
    FirstPiece(ps, kept, inputs);
    hide Frames;
  }

  lemma NothingSent(qs: seq<Packet>, ps: seq<seq<byte>>)
    requires AllEncode(ps, qs) && ps == []
    ensures DrawnNow(AllLeaves(qs)) == []
  {}

  lemma SomeNow(ps: seq<seq<byte>>, qs: seq<Packet>, j: nat)
    requires AllEncode(ps, qs) && AllPlayable(AllLeaves(qs)) && AllImmediate(AllLeaves(qs)) && j <= |ps|
    ensures |qs| == |ps| && AllEncode(ps[..j], qs[..j]) && AllEncode(ps[j..], qs[j..])
    ensures AllPlayable(AllLeaves(qs[..j])) && AllPlayable(AllLeaves(qs[j..]))
    ensures AllImmediate(AllLeaves(qs[..j])) && AllImmediate(AllLeaves(qs[j..]))
  {
    hide IsPacket, Rooted, Playable, AllLeaves;
    AllLeavesConcat(qs[..j], qs[j..]);
    assert qs[..j] + qs[j..] == qs;
    var a, b := AllLeaves(qs[..j]), AllLeaves(qs[j..]);
    assert forall i :: 0 <= i < |a| ==> a[i] == (a + b)[i];
    assert forall i :: 0 <= i < |b| ==> b[i] == (a + b)[|a| + i];
  }
}
