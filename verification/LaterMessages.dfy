// monobusd.c: messages for later, over a whole connection.

module LaterMessages {
  import opened Bytes
  import opened Slip
  import opened SlipStream
  import opened SlipSession
  import opened Osc
  import opened OscBundle
  import opened Compositor
  import opened Scheduler
  import opened Beat
  import opened Serve

  /** The messages that become due in the rounds, in the order in which they are drawn. */
  function DueInRounds(w: World, ps: seq<seq<byte>>, start: nat, inputs: seq<seq<byte>>, times: seq<Time>): seq<Job>
    requires |times| == |inputs|
    decreases |inputs|
  {
    if inputs == [] then []
    else
      var n := start + |inputs[0]|;
      var j := WholeIn(ps, n);
      var w1 := HandleAll(w, EventsOf(ps[..j]));
      w1.waiting[..DuePrefix(w1.waiting, times[0])] +
      DueInRounds(AfterDue(w1, times[0]), ps[j..], |Partial(ps, n)|, inputs[1..], times[1..])
  }

  /** c consists of a and b, each of them in its order. */
  ghost predicate Merges(c: seq<Command>, a: seq<Command>, b: seq<Command>)
    decreases |c|
  {
    if c == [] then a == [] && b == []
    else
      var init, cmd := c[..|c| - 1], c[|c| - 1];
      || (a != [] && a[|a| - 1] == cmd && Merges(init, a[..|a| - 1], b))
      || (b != [] && b[|b| - 1] == cmd && Merges(init, a, b[..|b| - 1]))
  }

  lemma {:induction false} MergesOneByOne(a: seq<Command>, b: seq<Command>)
    ensures Merges(a + b, a, b)
  {
    var c := a + b;
    if b != [] {
      MergesOneByOne(a, b[..|b| - 1]);
      assert c[..|c| - 1] == a + b[..|b| - 1];
    } else if a != [] {
      MergesOneByOne(a[..|a| - 1], b);
      assert c == a && a[..|a| - 1] + b == a[..|a| - 1];
    }
  }

  lemma {:induction false} MergesConcat(c1: seq<Command>, a1: seq<Command>, b1: seq<Command>,
                                        c2: seq<Command>, a2: seq<Command>, b2: seq<Command>)
    requires Merges(c1, a1, b1) && Merges(c2, a2, b2)
    ensures Merges(c1 + c2, a1 + a2, b1 + b2)
    decreases |c2|
  {
    if c2 == [] {
      assert c1 + c2 == c1 && a1 + a2 == a1 && b1 + b2 == b1;
    } else {
      var init, cmd := c2[..|c2| - 1], c2[|c2| - 1];
      assert (c1 + c2)[..|c1 + c2| - 1] == c1 + init;
      if a2 != [] && a2[|a2| - 1] == cmd && Merges(init, a2[..|a2| - 1], b2) {
        MergesConcat(c1, a1, b1, init, a2[..|a2| - 1], b2);
        assert (a1 + a2)[..|a1 + a2| - 1] == a1 + a2[..|a2| - 1];
      } else {
        MergesConcat(c1, a1, b1, init, a2, b2[..|b2| - 1]);
        assert (b1 + b2)[..|b1 + b2| - 1] == b1 + b2[..|b2| - 1];
      }
    }
  }

  lemma {:induction false} DeferredConcat(a: seq<Leaf>, b: seq<Leaf>)
    ensures Deferred(a + b) == Deferred(a) + Deferred(b)
  {
    if b == [] {
      assert a + b == a;
    } else {
      var k := |b| - 1;
      DeferredConcat(a, b[..k]);
      assert (a + b)[..|a + b| - 1] == a + b[..k];
    }
  }

  lemma {:induction false} EffectsConcat(a: seq<Job>, b: seq<Job>)
    ensures Effects(a + b) == Effects(a) + Effects(b)
  {
    hide Effect;
    if b == [] {
      assert a + b == a;
    } else {
      var k := |b| - 1;
      EffectsConcat(a, b[..k]);
      assert (a + b)[..|a + b| - 1] == a + b[..k];
    }
  }

  /** The commands of the leaves. */
  function EffectsOf(leaves: seq<Leaf>): seq<Command> {
    if leaves == [] then []
    else
      var leaf := leaves[|leaves| - 1];
      EffectsOf(leaves[..|leaves| - 1]) + EffectOf(leaf.path, leaf.args)
  }

  lemma EffectsOfOne(job: Job, leaf: Leaf)
    ensures Effects([]) == [] && Effects([job]) == Effect(job.buf)
    ensures EffectsOf([]) == [] && EffectsOf([leaf]) == EffectOf(leaf.path, leaf.args)
  {
    hide Effect, EffectOf;
    assert [job][..0] == [] && [leaf][..0] == [];
    assert [] + Effect(job.buf) == Effect(job.buf);
    assert [] + EffectOf(leaf.path, leaf.args) == EffectOf(leaf.path, leaf.args);
  }

  /** What waits for messages draws what they say. */
  lemma {:induction false} EffectsOfWaiting(jobs: seq<Job>, leaves: seq<Leaf>)
    requires AllWaitFor(jobs, leaves) && AllPlayable(leaves)
    ensures Effects(jobs) == EffectsOf(leaves)
  {
    hide Effect, EffectOf, Playable;
    if jobs != [] {
      var k := |jobs| - 1;
      EffectsOfWaiting(jobs[..k], leaves[..k]);
      assert WaitsFor(jobs[k], leaves[k]);
      EffectIsOfMessage(jobs[k].buf, leaves[k].path, leaves[k].args);
    }
  }

  lemma {:induction false} DeferredPlayable(leaves: seq<Leaf>)
    requires AllPlayable(leaves)
    ensures AllPlayable(Deferred(leaves))
  {
    hide Playable;
    if leaves != [] {
      DeferredPlayable(leaves[..|leaves| - 1]);
    }
  }

  /** One round: what it draws, what becomes due in it, and what waits afterwards. */
  lemma OneRoundOf(w: World, packets: seq<seq<byte>>, qs: seq<Packet>, now: Time) returns (more: seq<Job>)
    requires AllEncode(packets, qs) && AllPlayable(AllLeaves(qs)) && FromTimetags(w.waiting)
    ensures var w1, leaves := HandleAll(w, EventsOf(packets)), AllLeaves(qs);
      var due, w2 := w1.waiting[..DuePrefix(w1.waiting, now)], AfterBeat(w, packets, now);
      && w2.drawn == w.drawn + (DrawnNow(leaves) + Effects(due))
      && due + w2.waiting == w.waiting + more && AllWaitFor(more, Deferred(leaves)) && FromTimetags(w2.waiting)
  {
    hide AllEncode, AllPlayable, AllLeaves, EventsOf, HandleAll, AllAccepted, DrawnNow, Deferred, AllWaitFor, Effects,
         Follows, AfterDue, FromTimetags, DuePrefix;
    var leaves, w1 := AllLeaves(qs), HandleAll(w, EventsOf(packets));
    PacketsHandled(w, packets, qs);
    more := FollowsWith(w, w1, leaves);
    DueLeaves(w1, now);
    CommandsAssociate(w.drawn, DrawnNow(leaves), Effects(w1.waiting[..DuePrefix(w1.waiting, now)]));
  }

  lemma FollowsWith(w: World, w': World, leaves: seq<Leaf>) returns (more: seq<Job>)
    requires Follows(w, w', leaves)
    ensures w'.drawn == w.drawn + DrawnNow(leaves) && w'.waiting == w.waiting + more
    ensures AllWaitFor(more, Deferred(leaves)) && FromTimetags(w'.waiting)
  {
    hide DrawnNow, Deferred, AllWaitFor, FromTimetags;
    more := w'.waiting[|w.waiting|..];
    assert w'.waiting == w'.waiting[..|w.waiting|] + more;
  }

  lemma DueLeaves(w: World, now: Time)
    requires FromTimetags(w.waiting)
    ensures var due, w' := w.waiting[..DuePrefix(w.waiting, now)], AfterDue(w, now);
      && w'.drawn == w.drawn + Effects(due) && due + w'.waiting == w.waiting && FromTimetags(w'.waiting)
  {
    hide DuePrefix, Effects;
    var n := DuePrefix(w.waiting, now);
    assert w.waiting == w.waiting[..n] + w.waiting[n..];
  }

  /** Messages whose time has come when they arrive are drawn in the very beat in which they arrive. */
  lemma DueAtOnce(w: World, packets: seq<seq<byte>>, qs: seq<Packet>, now: Time)
    requires AllEncode(packets, qs) && AllPlayable(AllLeaves(qs)) && w.waiting == [] && 0 <= now.nsec < 1000000000
    requires forall leaf :: leaf in Deferred(AllLeaves(qs)) ==> leaf.timetag / 0x1_0000_0000 <= now.sec + 2208988800
    ensures AfterBeat(w, packets, now)
      == World(w.drawn + DrawnNow(AllLeaves(qs)) + EffectsOf(Deferred(AllLeaves(qs))), [])
  {
    hide AllEncode, AllPlayable, AllLeaves, EventsOf, HandleAll, AllAccepted, DrawnNow, Deferred, Effects, EffectsOf,
         Follows, DuePrefix, AllWaitFor;
    var leaves, w1 := AllLeaves(qs), HandleAll(w, EventsOf(packets));
    PacketsHandled(w, packets, qs);
    var more := FollowsWith(w, w1, leaves);
    assert [] + more == more;
    AllDue(more, Deferred(leaves), now);
    DeferredPlayable(leaves);
    EffectsOfWaiting(more, Deferred(leaves));
    assert more[..|more|] == more && more[|more|..] == [];
  }

  lemma {:induction false} AllDue(jobs: seq<Job>, leaves: seq<Leaf>, now: Time)
    requires AllWaitFor(jobs, leaves) && 0 <= now.nsec < 1000000000
    requires forall leaf :: leaf in leaves ==> leaf.timetag / 0x1_0000_0000 <= now.sec + 2208988800
    ensures DuePrefix(jobs, now) == |jobs|
  {
    hide Due, TimeOf, IsMessage;
    if jobs != [] {
      assert WaitsFor(jobs[0], leaves[0]) && leaves[0] in leaves;
      DueByTag(leaves[0].timetag, jobs[0].buf, now);
      forall i | 0 <= i < |jobs| - 1
        ensures WaitsFor(jobs[1..][i], leaves[1..][i])
      {
        assert WaitsFor(jobs[i + 1], leaves[i + 1]);
      }
      AllDue(jobs[1..], leaves[1..], now);
    }
  }

  /**
   * Over a whole connection: those that become due and those that still wait are, in order,
   * those that waited before and those that were sent for later; and what was drawn are the
   * commands of the immediate messages and of those that became due, each in order.
   */
  lemma {:induction false} DeferredRounds(w: World, ps: seq<seq<byte>>, qs: seq<Packet>, kept: seq<byte>,
                                          inputs: seq<seq<byte>>, times: seq<Time>)
    returns (later: seq<Job>, drawn: seq<Command>)
    requires AllEncode(ps, qs) && AllPlayable(AllLeaves(qs)) && FromTimetags(w.waiting)
    requires |times| == |inputs| && NonEmpty(ps) && kept + Joined(inputs) == Frames(ps)
    requires inputs == [] ==> kept == []
    ensures var w', due := Rounds(w, ps, |kept|, inputs, times), DueInRounds(w, ps, |kept|, inputs, times);
      && due + w'.waiting == w.waiting + later && AllWaitFor(later, Deferred(AllLeaves(qs)))
      && w'.drawn == w.drawn + drawn && Merges(drawn, DrawnNow(AllLeaves(qs)), Effects(due))
    decreases |inputs|
  {
    hide AllEncode, AllPlayable, AllLeaves, DrawnNow, Deferred, AllWaitFor, FromTimetags, Effects, AfterDue, HandleAll,
         EventsOf, DuePrefix, Frames, Joined, WholeIn, Partial, Merges;
    if inputs == [] {
      NothingRound(ps, qs);
      later, drawn := [], [];
      assert w.drawn + [] == w.drawn && w.waiting + [] == w.waiting == [] + w.waiting;
    } else {
      var n := |kept| + |inputs[0]|;
      var j := WholeIn(ps, n);
      FirstPieceOf(ps, kept, inputs);
      NextPieces(ps, n, Joined(inputs[1..]));
      SomeLeaves(ps, qs, j);
      var more := OneRoundOf(w, ps[..j], qs[..j], times[0]);
      var w1, w2 := HandleAll(w, EventsOf(ps[..j])), AfterBeat(w, ps[..j], times[0]);
      var t := Partial(ps, n);
      var later2, drawn2 := DeferredRounds(w2, ps[j..], qs[j..], t, inputs[1..], times[1..]);
      var due1 := w1.waiting[..DuePrefix(w1.waiting, times[0])];
      var due2 := DueInRounds(w2, ps[j..], |t|, inputs[1..], times[1..]);
      var end := Rounds(w2, ps[j..], |t|, inputs[1..], times[1..]);
      var now1, now2 := DrawnNow(AllLeaves(qs[..j])), DrawnNow(AllLeaves(qs[j..]));
      later, drawn := more + later2, now1 + Effects(due1) + drawn2;
      DrawnConcat(AllLeaves(qs[..j]), AllLeaves(qs[j..]));
      DeferredConcat(AllLeaves(qs[..j]), AllLeaves(qs[j..]));
      EffectsConcat(due1, due2);
      WaitConcat(more, Deferred(AllLeaves(qs[..j])), later2, Deferred(AllLeaves(qs[j..])));
      MergesOneByOne(now1, Effects(due1));
      MergesConcat(now1 + Effects(due1), now1, Effects(due1), drawn2, now2, Effects(due2));
      Regroup4(due1, due2, end.waiting, w2.waiting, w.waiting, more, later2);
      assert w.drawn + (now1 + Effects(due1)) + drawn2 == w.drawn + drawn;
    }
  }

  lemma Regroup4(due1: seq<Job>, due2: seq<Job>, rest: seq<Job>, mid: seq<Job>, was: seq<Job>,
                 more: seq<Job>, later: seq<Job>)
    requires due2 + rest == mid + later && due1 + mid == was + more
    ensures due1 + due2 + rest == was + (more + later)
  {
    assert due1 + due2 + rest == due1 + (due2 + rest) == due1 + mid + later;
  }

  lemma WaitConcat(a: seq<Job>, l: seq<Leaf>, b: seq<Job>, m: seq<Leaf>)
    requires AllWaitFor(a, l) && AllWaitFor(b, m)
    ensures AllWaitFor(a + b, l + m)
  {
    hide WaitsFor;
  }

  lemma NothingRound(ps: seq<seq<byte>>, qs: seq<Packet>)
    requires AllEncode(ps, qs) && NonEmpty(ps) && Frames(ps) == Joined([])
    ensures DrawnNow(AllLeaves(qs)) == [] && Deferred(AllLeaves(qs)) == []
    ensures AllWaitFor([], []) && Merges([], [], []) && Effects([]) == []
  {
    NoBytesNoPackets(ps);
  }

  lemma SomeLeaves(ps: seq<seq<byte>>, qs: seq<Packet>, j: nat)
    requires AllEncode(ps, qs) && AllPlayable(AllLeaves(qs)) && j <= |ps|
    ensures |qs| == |ps| && AllEncode(ps[..j], qs[..j]) && AllEncode(ps[j..], qs[j..])
    ensures AllPlayable(AllLeaves(qs[..j])) && AllPlayable(AllLeaves(qs[j..]))
    ensures AllLeaves(qs) == AllLeaves(qs[..j]) + AllLeaves(qs[j..])
  {
    hide IsPacket, Rooted, Playable, AllLeaves;
    AllLeavesConcat(qs[..j], qs[j..]);
    assert qs[..j] + qs[j..] == qs;
    var a, b := AllLeaves(qs[..j]), AllLeaves(qs[j..]);
    assert forall i :: 0 <= i < |a| ==> a[i] == (a + b)[i];
    assert forall i :: 0 <= i < |b| ==> b[i] == (a + b)[|a| + i];
  }

  /**
   * From clients to the display, on a list that was empty: the first so many of the messages
   * for later have been drawn, all others wait, each exactly once and in order; and the
   * drawing is made of those and of all immediate messages, each of the two in order.
   */
  lemma FromClients(w: World, ps: seq<seq<byte>>, qs: seq<Packet>, inputs: seq<seq<byte>>, times: seq<Time>)
    returns (k: nat, drawn: seq<Command>)
    requires AllEncode(ps, qs) && AllPlayable(AllLeaves(qs)) && w.waiting == []
    requires |times| == |inputs| && NonEmpty(ps) && Joined(inputs) == Frames(ps)
    ensures var w', later := Rounds(w, ps, 0, inputs, times), Deferred(AllLeaves(qs));
      && k <= |later| && AllWaitFor(w'.waiting, later[k..])
      && w'.drawn == w.drawn + drawn && Merges(drawn, DrawnNow(AllLeaves(qs)), EffectsOf(later[..k]))
  {
    hide AllEncode, AllPlayable, AllLeaves, DrawnNow, Deferred, Rounds, DueInRounds, Merges, Effects, EffectsOf, Joined,
         Frames, AllWaitFor;
    assert [] + Joined(inputs) == Joined(inputs);
    var leaves := Deferred(AllLeaves(qs));
    var later;
    later, drawn := DeferredRounds(w, ps, qs, [], inputs, times);
    var due, rest := DueInRounds(w, ps, 0, inputs, times), Rounds(w, ps, 0, inputs, times).waiting;
    k := |due|;
    assert [] + later == later == due + rest;
    WaitSplit(due, rest, leaves);
    DeferredPlayable(AllLeaves(qs));
    SomePlayable(leaves, k);
    EffectsOfWaiting(due, leaves[..k]);
  }

  lemma WaitSplit(a: seq<Job>, b: seq<Job>, leaves: seq<Leaf>)
    requires AllWaitFor(a + b, leaves)
    ensures |a| <= |leaves| && AllWaitFor(a, leaves[..|a|]) && AllWaitFor(b, leaves[|a|..])
  {
    hide WaitsFor;
    assert forall i :: 0 <= i < |a| ==> a[i] == (a + b)[i];
    assert forall i :: 0 <= i < |b| ==> b[i] == (a + b)[|a| + i];
  }

  lemma SomePlayable(leaves: seq<Leaf>, k: nat)
    requires AllPlayable(leaves) && k <= |leaves|
    ensures AllPlayable(leaves[..k])
  {
    hide Playable;
  }
}
