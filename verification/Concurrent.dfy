// monobusd.c and varchunk/varchunk.h: the loop over the ring in _beat, while the other
// thread goes on committing.

module Concurrent {
  import opened Bytes
  import opened RingLayout
  import opened RingProtocol
  import opened Beat
  import OscBundle

  lemma {:induction false} RunConcat(s: System, a: seq<Step>, b: seq<Step>)
    requires Inv(s) && Run(s, a + b)
    ensures Run(s, a) && Inv(After(s, a)) && Run(After(s, a), b)
    ensures After(s, a + b) == After(After(s, a), b)
    decreases |a|
  {
    hide Inv, Next, Enabled;
    if a == [] {
      assert a + b == b;
    } else {
      assert (a + b)[0] == a[0] && (a + b)[1..] == a[1..] + b;
      StepInv(s, a[0]);
      RunConcat(Next(s, a[0]), a[1..], b);
    }
  }

  lemma OneStep(s: System, step: Step)
    requires Inv(s) && Run(s, [step])
    ensures Enabled(s, step) && Inv(Next(s, step)) && After(s, [step]) == Next(s, step)
  {
    hide Inv, Next, Enabled;
    StepInv(s, step);
    assert [step][1..] == [];
  }

  lemma StepGrows(s: System, step: Step)
    requires Inv(s) && Enabled(s, step)
    ensures s.committed <= Next(s, step).committed
    ensures step.Release? ==> s.consumer.Holding? && |s.received| < |s.committed|
                              && Next(s, step).received == s.received + [s.committed[|s.received|]]
    ensures !step.Release? ==> Next(s, step).received == s.received
  {
    if step.Release? {
      HeldBytes(s);
    }
    hide Inv, Put, Reserve, MarkGap, MarkChunk, StoreHead, StoreTail;
  }

  /** The chunk that is handled while it is held, and then released. */
  function Held(s: System): seq<byte>
    requires Inv(s) && s.consumer.Holding?
  {
    HeldBytes(s);
    s.ring.mem[s.consumer.off..s.consumer.off + s.consumer.len]
  }

  /** What the run makes of the world: every chunk is handled before it is released. */
  ghost function Handled(w: World, s: System, steps: seq<Step>): World
    requires Inv(s) && Run(s, steps)
    decreases |steps|
  {
    if steps == [] then w
    else
      StepInv(s, steps[0]);
      var w' := if steps[0].Release? then HandleAll(w, EventsOf([Held(s)])) else w;
      Handled(w', Next(s, steps[0]), steps[1..])
  }

  lemma {:induction false} EventsConcat(a: seq<seq<byte>>, b: seq<seq<byte>>)
    ensures EventsOf(a + b) == EventsOf(a) + EventsOf(b)
  {
    hide OscBundle.Visit;
    if b == [] {
      assert a + b == a;
    } else {
      var k := |b| - 1;
      EventsConcat(a, b[..k]);
      assert (a + b)[..|a + b| - 1] == a + b[..k];
    }
  }

  /** In every interleaving, what the run has handled is what it has received, in order. */
  lemma {:induction false} HandledIsReceived(w: World, s: System, steps: seq<Step>)
    requires Inv(s) && Run(s, steps)
    ensures s.received <= After(s, steps).received && s.committed <= After(s, steps).committed
    ensures Handled(w, s, steps) == HandleAll(w, EventsOf(After(s, steps).received[|s.received|..]))
    decreases |steps|
  {
    hide Inv, Next, Enabled, HandleAll, EventsOf;
    if steps == [] {
      NothingHandled(w);
      assert s.received[|s.received|..] == [];
    } else {
      var step := steps[0];
      StepInv(s, step);
      StepGrows(s, step);
      var s1 := Next(s, step);
      var end := After(s1, steps[1..]);
      if step.Release? {
        HeldBytes(s);
        var w1 := HandleAll(w, EventsOf([Held(s)]));
        HandledIsReceived(w1, s1, steps[1..]);
        var rest := end.received[|s1.received|..];
        assert end.received[|s.received|..] == [Held(s)] + rest;
        EventsConcat([Held(s)], rest);
        HandleConcat(w, EventsOf([Held(s)]), EventsOf(rest));
      } else {
        HandledIsReceived(w, s1, steps[1..]);
      }
    }
  }

  lemma {:induction false} ProducerLeavesConsumer(s: System, steps: seq<Step>)
    requires Inv(s) && Run(s, steps) && forall i :: 0 <= i < |steps| ==> ProducerStep(steps[i])
    ensures var s' := After(s, steps);
      s'.consumer == s.consumer && s'.received == s.received && s.committed <= s'.committed
    decreases |steps|
  {
    hide Inv, Next, Enabled;
    if steps != [] {
      StepInv(s, steps[0]);
      ProducerStepLeavesConsumer(s, steps[0]);
      ProducerLeavesConsumer(Next(s, steps[0]), steps[1..]);
    }
  }

  /** A consumer that finds nothing has received all that was committed when it loaded head. */
  lemma NothingFound(s: System)
    requires Inv(s) && Enabled(s, Inspect) && Next(s, Inspect).consumer.Resting?
    ensures |s.received| == s.consumer.seen && Next(s, Inspect).received == s.received <= s.committed
  {
    InspectFindsChunk(s);
    hide Pad, Word, Element;
  }

  /**
   * The loop ends with a look at head that finds nothing: pre is whatever both threads did
   * before that look, mid what the producer did between load and decision. The loop has
   * then handled exactly the chunks that were committed when it looked for the last time;
   * those that were committed since wait for the next beat.
   */
  lemma InterleavedBeat(w: World, s: System, pre: seq<Step>, mid: seq<Step>)
    requires Inv(s) && Run(s, pre + ([LoadHead] + (mid + [Inspect])))
    requires forall i :: 0 <= i < |mid| ==> ProducerStep(mid[i])
    requires After(s, pre + ([LoadHead] + (mid + [Inspect]))).consumer.Resting?
    ensures Run(s, pre) && s.received <= After(s, pre).committed
    ensures var steps := pre + ([LoadHead] + (mid + [Inspect]));
      && After(s, steps).received == After(s, pre).committed <= After(s, steps).committed
      && Handled(w, s, steps) == HandleAll(w, EventsOf(After(s, pre).committed[|s.received|..]))
  {
    hide Inv, Enabled, Next, HandleAll, EventsOf, Run, After, Handled;
    var steps := pre + ([LoadHead] + (mid + [Inspect]));
    RunConcat(s, pre, [LoadHead] + (mid + [Inspect]));
    var s1 := After(s, pre);
    LastLook(s1, mid);
    HandledIsReceived(w, s, steps);
  }

  lemma LastLook(s: System, mid: seq<Step>)
    requires Inv(s) && Run(s, [LoadHead] + (mid + [Inspect]))
    requires forall i :: 0 <= i < |mid| ==> ProducerStep(mid[i])
    requires After(s, [LoadHead] + (mid + [Inspect])).consumer.Resting?
    ensures After(s, [LoadHead] + (mid + [Inspect])).received == s.committed
    ensures s.committed <= After(s, [LoadHead] + (mid + [Inspect])).committed
  {
    hide Inv, Enabled, Next, Run, After;
    RunConcat(s, [LoadHead], mid + [Inspect]);
    OneStep(s, LoadHead);
    HeadSeen(s);
    Decision(Next(s, LoadHead), mid);
  }

  lemma Decision(s: System, mid: seq<Step>)
    requires Inv(s) && s.consumer.HeadLoaded? && s.consumer.seen == |s.committed| && Run(s, mid + [Inspect])
    requires forall i :: 0 <= i < |mid| ==> ProducerStep(mid[i])
    requires After(s, mid + [Inspect]).consumer.Resting?
    ensures After(s, mid + [Inspect]).received == s.committed <= After(s, mid + [Inspect]).committed
  {
    hide Inv, Enabled, Next, Run, After;
    RunConcat(s, mid, [Inspect]);
    ProducerLeavesConsumer(s, mid);
    var s' := After(s, mid);
    OneStep(s', Inspect);
    NothingFound(s');
    StepGrows(s', Inspect);
    SamePrefix(s'.received, s.committed, s'.committed);
  }

  lemma SamePrefix(a: seq<seq<byte>>, b: seq<seq<byte>>, c: seq<seq<byte>>)
    requires a <= c && b <= c && |a| == |b|
    ensures a == b
  {
    assert a == c[..|a|] == b;
  }

  lemma HeadSeen(s: System)
    requires Inv(s) && Enabled(s, LoadHead)
    ensures Next(s, LoadHead).consumer == HeadLoaded(s.ring.head, |s.committed|)
    ensures Next(s, LoadHead).committed == s.committed
  {}
}
