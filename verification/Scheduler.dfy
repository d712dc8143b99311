// monobusd.c: the list of messages that wait for their time (_sched_append and the dispatch loop of _beat).

module Scheduler {
  import opened Bytes

  const JAN_1970 := 2208988800
  const NSECS := 1000000000

  /** struct timespec */
  datatype Time = Time(sec: int, nsec: int)

  /** What sched_t holds besides its link. */
  datatype Job = Job(to: Time, buf: seq<byte>)

  /** The time of a bundle: seconds since 1970, and a fraction computed from (timetag && 32), which is 0 or 1. */
  function TimeOf(timetag: word64): Time {
    Time(timetag / 0x1_0000_0000 - JAN_1970,
         ((if timetag != 0 && 32 != 0 then 1.0 else 0.0) / 4294967296.0 * 1000000000.0).Floor)
  }

  /** So the nanoseconds are always zero, whatever the fraction of the time tag. */
  lemma NanosecondsAreLost(timetag: word64)
    ensures TimeOf(timetag).nsec == 0
    ensures TimeOf(timetag) == TimeOf(timetag / 0x1_0000_0000 * 0x1_0000_0000)
  {}

  /** The seconds of a time tag count from 1900, those of the clock from 1970: 70 years and 17 leap days later. */
  lemma TimeOfTag(timetag: word64)
    ensures TimeOf(timetag).sec + 2208988800 == timetag / 0x1_0000_0000
    ensures 2208988800 == (70 * 365 + 17) * 24 * 60 * 60
  {}

  // ----- The list as a sequence -----

  /** The test of _sched_append for stopping in front of an element. */
  predicate StopsBefore(e: Job, new': Job) {
    e.to.sec > new'.to.sec && e.to.nsec > new'.to.nsec
  }

  function InsertPos(jobs: seq<Job>, new': Job): (k: nat)
    ensures k <= |jobs|
  {
    if jobs == [] || StopsBefore(jobs[0], new') then 0 else 1 + InsertPos(jobs[1..], new')
  }

  function Inserted(jobs: seq<Job>, new': Job): seq<Job> {
    jobs[..InsertPos(jobs, new')] + [new'] + jobs[InsertPos(jobs, new')..]
  }

  lemma {:induction false} InsertPosIs(jobs: seq<Job>, new': Job, k: nat)
    requires k <= |jobs| && forall i :: 0 <= i < k ==> !StopsBefore(jobs[i], new')
    requires k == |jobs| || StopsBefore(jobs[k], new')
    ensures InsertPos(jobs, new') == k
  {
    if k > 0 {
      InsertPosIs(jobs[1..], new', k - 1);
    }
  }

  /** A new message stands in front of the first one that is later in both seconds and nanoseconds. */
  lemma {:induction false} InsertionPoint(jobs: seq<Job>, new': Job) returns (k: nat)
    ensures k <= |jobs| && Inserted(jobs, new') == jobs[..k] + [new'] + jobs[k..]
    ensures forall i :: 0 <= i < k ==> jobs[i].to.sec <= new'.to.sec || jobs[i].to.nsec <= new'.to.nsec
    ensures k < |jobs| ==> jobs[k].to.sec > new'.to.sec && jobs[k].to.nsec > new'.to.nsec
  {
    k := InsertPos(jobs, new');
    if jobs != [] && !StopsBefore(jobs[0], new') {
      var j := InsertionPoint(jobs[1..], new');
      InsertPosIs(jobs[1..], new', j);
      forall i | 0 <= i < k
        ensures jobs[i].to.sec <= new'.to.sec || jobs[i].to.nsec <= new'.to.nsec
      {
        if i > 0 {
          assert jobs[i] == jobs[1..][i - 1];
        }
      }
    }
  }

  /** The message is due at the time now; the C code computes this in floating point. */
  function Diff(job: Job, now: Time): real {
    (now.sec - job.to.sec) as real + (now.nsec - job.to.nsec) as real * 0.000000001
  }

  predicate Due(job: Job, now: Time) {
    Diff(job, now) >= 0.0
  }

  /** It is due exactly if its time is not later than now. */
  lemma DueMeans(job: Job, now: Time)
    ensures Due(job, now) <==>
            job.to.sec * 1000000000 + job.to.nsec <= now.sec * 1000000000 + now.nsec
  {
    var s, n := now.sec - job.to.sec, now.nsec - job.to.nsec;
    assert Diff(job, now) == s as real + n as real * 0.000000001;
    assert (s as real + n as real * 0.000000001) * 1000000000.0 == (s * 1000000000 + n) as real;
  }

  /** A message of a bundle is due in every beat that starts in the second of its time tag, or later. */
  lemma DueByTag(timetag: word64, buf: seq<byte>, now: Time)
    requires 0 <= now.nsec < 1000000000
    ensures Due(Job(TimeOf(timetag), buf), now) <==> timetag / 0x1_0000_0000 <= now.sec + 2208988800
  {
    hide Due;
    TimeOfTag(timetag);
    NanosecondsAreLost(timetag);
    DueMeans(Job(TimeOf(timetag), buf), now);
  }

  /** How many messages a pass dispatches: it stops at the first one that is not due. */
  function DuePrefix(jobs: seq<Job>, now: Time): (n: nat)
    ensures n <= |jobs|
  {
    if jobs == [] || !Due(jobs[0], now) then 0 else 1 + DuePrefix(jobs[1..], now)
  }

  lemma {:induction false} DuePrefixIs(jobs: seq<Job>, now: Time)
    ensures forall i :: 0 <= i < DuePrefix(jobs, now) ==> Due(jobs[i], now)
    ensures DuePrefix(jobs, now) < |jobs| ==> !Due(jobs[DuePrefix(jobs, now)], now)
  {
    if jobs != [] && Due(jobs[0], now) {
      DuePrefixIs(jobs[1..], now);
      forall i | 0 <= i < DuePrefix(jobs, now)
        ensures Due(jobs[i], now)
      {
        if i > 0 {
          assert jobs[i] == jobs[1..][i - 1];
        }
      }
    }
  }

  // ----- The list as linked nodes -----

  class Node {
    var next: Node?
    const job: Job

    constructor (job: Job)
      ensures this.job == job && next == null
    {
      this.job := job;
      next := null;
    }
  }

  /** The nodes are all different, and following next from the first visits them in order and ends. */
  ghost predicate Linked(list: Node?, nodes: seq<Node>)
    reads nodes
  {
    && list == At(nodes, 0)
    && (forall i :: 0 <= i < |nodes| ==> nodes[i].next == At(nodes, i + 1))
    && Distinct(nodes)
  }

  ghost predicate Distinct(nodes: seq<Node>) {
    forall i, j :: 0 <= i < j < |nodes| ==> nodes[i] != nodes[j]
  }

  ghost function At(nodes: seq<Node>, i: nat): Node? {
    if i < |nodes| then nodes[i] else null
  }

  /** Following next from the first node visits every node once, in order, and ends. */
  lemma LinkedIsList(list: Node?, nodes: seq<Node>)
    requires Linked(list, nodes)
    ensures list == null <==> nodes == []
    ensures nodes != [] ==> list == nodes[0] && nodes[|nodes| - 1].next == null
    ensures forall i :: 0 <= i < |nodes| - 1 ==> nodes[i].next == nodes[i + 1]
    ensures forall i, j :: 0 <= i < j < |nodes| ==> nodes[i] != nodes[j]
  {}

  ghost function Jobs(nodes: seq<Node>): (jobs: seq<Job>)
    ensures |jobs| == |nodes|
  {
    seq(|nodes|, i requires 0 <= i < |nodes| => nodes[i].job)
  }

  /** _sched_append */
  method SchedAppend(list: Node?, elmnt: Node, ghost nodes: seq<Node>) returns (list': Node?, ghost nodes': seq<Node>)
    requires Linked(list, nodes) && elmnt !in nodes
    modifies elmnt, nodes
    ensures Linked(list', nodes')
    ensures Jobs(nodes') == Inserted(Jobs(nodes), elmnt.job)
    ensures forall n :: n in nodes' ==> n in nodes || n == elmnt
  {
    hide Inserted, Jobs;
    if list == null {
      JobsInserted(nodes, elmnt, 0);
      elmnt.next := null;
      return elmnt, nodes[..0] + [elmnt] + nodes[0..];
    }
    var prev: Node? := null;
    var ptr := list;
    ghost var k := 0;
    while ptr != null
      invariant 0 <= k <= |nodes| && ptr == At(nodes, k)
      invariant prev == if k == 0 then null else nodes[k - 1]
      invariant forall i :: 0 <= i < k ==> !StopsBefore(nodes[i].job, elmnt.job)
      decreases |nodes| - k
    {
      if ptr.job.to.sec > elmnt.job.to.sec && ptr.job.to.nsec > elmnt.job.to.nsec {
        break;
      }
      prev, ptr := ptr, ptr.next;
      k := k + 1;
    }
    JobsInserted(nodes, elmnt, k);
    nodes' := nodes[..k] + [elmnt] + nodes[k..];
    list' := LinkIn(list, prev, elmnt, nodes, k);
  }

  /** The end of _sched_append: the element goes between prev and its successor. */
  method LinkIn(list: Node?, prev: Node?, elmnt: Node, ghost nodes: seq<Node>, ghost k: nat) returns (list': Node?)
    requires Linked(list, nodes) && elmnt !in nodes && k <= |nodes|
    requires prev == if k == 0 then null else nodes[k - 1]
    modifies elmnt, nodes
    ensures Linked(list', nodes[..k] + [elmnt] + nodes[k..])
  {
    if k > 0 {
      assert forall i :: 0 <= i < |nodes| && i != k - 1 ==> nodes[i] != nodes[k - 1];
    }
    if prev == null {
      elmnt.next := list;
      list' := elmnt;
    } else {
      elmnt.next := prev.next;
      prev.next := elmnt;
      list' := list;
    }
    Relinked(list', nodes, elmnt, k);
  }

  lemma Relinked(list': Node?, nodes: seq<Node>, elmnt: Node, k: nat)
    requires Distinct(nodes) && elmnt !in nodes && k <= |nodes|
    requires list' == if k == 0 then elmnt else nodes[0]
    requires forall i :: 0 <= i < |nodes| ==> nodes[i].next == if i + 1 == k then elmnt else At(nodes, i + 1)
    requires elmnt.next == At(nodes, k)
    ensures Linked(list', nodes[..k] + [elmnt] + nodes[k..])
  {
    var nodes' := nodes[..k] + [elmnt] + nodes[k..];
    forall i | 0 <= i < |nodes'|
      ensures nodes'[i].next == At(nodes', i + 1)
    {
      if i < k {
        assert nodes'[i] == nodes[i];
      } else if i > k {
        assert nodes'[i] == nodes[i - 1];
      }
    }
    assert Distinct(nodes');
  }

  lemma JobsInserted(nodes: seq<Node>, elmnt: Node, k: nat)
    requires k <= |nodes|
    requires forall i :: 0 <= i < k ==> !StopsBefore(nodes[i].job, elmnt.job)
    requires k == |nodes| || StopsBefore(nodes[k].job, elmnt.job)
    ensures Jobs(nodes[..k] + [elmnt] + nodes[k..]) == Inserted(Jobs(nodes), elmnt.job)
  {
    InsertPosIs(Jobs(nodes), elmnt.job, k);
  }

  // ----- The daemon's list -----

  class Schedule {
    var list: Node?
    ghost var nodes: seq<Node>

    ghost predicate Valid()
      reads this, nodes
    {
      Linked(list, nodes)
    }

    /** The messages that wait, first the one to be dispatched first. */
    ghost function Pending(): seq<Job>
      reads this
    {
      Jobs(nodes)
    }

    constructor ()
      ensures Valid() && Pending() == []
    {
      list := null;
      nodes := [];
    }

    method Append(job: Job)
      requires Valid()
      modifies this, nodes
      ensures Valid() && Pending() == Inserted(old(Pending()), job)
      ensures forall n :: n in nodes ==> n in old(nodes) || fresh(n)
    {
      hide Linked, Jobs, Inserted;
      var elmnt := new Node(job);
      list, nodes := SchedAppend(list, elmnt, nodes);
    }

    /** One pass of the dispatch loop: due messages are handed over and freed, from the front. */
    method DispatchDue(now: Time) returns (dispatched: seq<Job>)
      requires Valid()
      modifies this
      ensures Valid()
      ensures dispatched == old(Pending())[..DuePrefix(old(Pending()), now)]
      ensures Pending() == old(Pending())[DuePrefix(old(Pending()), now)..]
      ensures forall i :: 0 <= i < |nodes| ==> nodes[i] in old(nodes)
    {
      hide DuePrefix, Jobs, Diff, Linked;
      dispatched := [];
      ghost var all, was, k := nodes, Pending(), 0;
      assert all[0..] == all && was[0..] == was;
      while list != null
        invariant Valid() && 0 <= k <= |all| == |was| && nodes == all[k..] && Pending() == was[k..]
        invariant dispatched == was[..k] && DuePrefix(was, now) == k + DuePrefix(was[k..], now)
        decreases |was| - k
      {
        var elmnt := list;
        DuePrefixStep(was, k, now);
        Unlinked(list, nodes);
        assert was[k..][0] == was[k] && was[k..][1..] == was[k + 1..];
        if Diff(elmnt.job, now) < 0.0 {
          return;
        }
        dispatched := dispatched + [elmnt.job];
        list, nodes := elmnt.next, nodes[1..];
        k := k + 1;
      }
      NoneLeft(list, nodes);
      DuePrefixStep(was, k, now);
    }
  }

  lemma DuePrefixStep(jobs: seq<Job>, k: nat, now: Time)
    requires k <= |jobs|
    ensures k == |jobs| || !Due(jobs[k], now) ==> DuePrefix(jobs[k..], now) == 0
    ensures k < |jobs| && Due(jobs[k], now) ==> DuePrefix(jobs[k..], now) == 1 + DuePrefix(jobs[k + 1..], now)
  {
    if k < |jobs| {
      assert jobs[k..][1..] == jobs[k + 1..];
    }
  }

  lemma NoneLeft(list: Node?, nodes: seq<Node>)
    requires Linked(list, nodes) && list == null
    ensures nodes == []
  {}

  lemma Unlinked(list: Node?, nodes: seq<Node>)
    requires Linked(list, nodes) && list != null
    ensures nodes != [] && Linked(list.next, nodes[1..])
    ensures list.job == Jobs(nodes)[0] && Jobs(nodes[1..]) == Jobs(nodes)[1..]
  {}

  // ----- The next beat -----

  function Nanoseconds(t: Time): int {
    t.sec * NSECS + t.nsec
  }

  /** The end of the loop in _beat: the time of the next beat, step nanoseconds later. */
  method NextBeat(to: Time, step: nat) returns (next: Time)
    requires 0 <= to.nsec < NSECS
    ensures 0 <= next.nsec < NSECS && Nanoseconds(next) == Nanoseconds(to) + step
    ensures 0 <= next.nsec < 1000000000
    ensures next.sec * 1000000000 + next.nsec == to.sec * 1000000000 + to.nsec + step
  {
    next := to.(nsec := to.nsec + step);
    while next.nsec >= NSECS
      invariant 0 <= next.nsec && Nanoseconds(next) == Nanoseconds(to) + step
      decreases next.nsec
    {
      next := Time(next.sec + 1, next.nsec - NSECS);
    }
  }

  // ----- Whole runs -----

  datatype Op = Insert(job: Job) | Pass(now: Time)

  datatype State = State(pending: seq<Job>, dispatched: seq<Job>)

  function Perform(s: State, op: Op): State {
    match op
    case Insert(job) => s.(pending := Inserted(s.pending, job))
    case Pass(now) =>
      var n := DuePrefix(s.pending, now);
      State(s.pending[n..], s.dispatched + s.pending[..n])
  }

  function Run(ops: seq<Op>): State {
    if ops == [] then State([], []) else Perform(Run(ops[..|ops| - 1]), ops[|ops| - 1])
  }

  function InsertedJobs(ops: seq<Op>): seq<Job> {
    if ops == [] then []
    else
      var init := InsertedJobs(ops[..|ops| - 1]);
      match ops[|ops| - 1]
      case Insert(job) => init + [job]
      case Pass(_) => init
  }

  lemma InsertKeepsAll(jobs: seq<Job>, job: Job)
    ensures multiset(Inserted(jobs, job)) == multiset(jobs) + multiset{job}
  {
    var k := InsertPos(jobs, job);
    assert jobs == jobs[..k] + jobs[k..];
  }

  /** Conservation: over any run, what was dispatched and what waits is exactly what was inserted, each as often. */
  lemma {:induction false} Conservation(ops: seq<Op>)
    ensures var s := Run(ops);
      multiset(s.dispatched) + multiset(s.pending) == multiset(InsertedJobs(ops))
  {
    if ops != [] {
      var s, op := Run(ops[..|ops| - 1]), ops[|ops| - 1];
      Conservation(ops[..|ops| - 1]);
      match op
      case Insert(job) =>
        InsertKeepsAll(s.pending, job);
      case Pass(now) =>
        var n := DuePrefix(s.pending, now);
        assert s.pending == s.pending[..n] + s.pending[n..];
    }
  }

  ghost predicate FromTimetags(jobs: seq<Job>) {
    forall i :: 0 <= i < |jobs| ==> jobs[i].to.nsec == 0
  }

  /** As all nanoseconds are zero, messages leave in the order in which they came, not in the order of their times. */
  lemma {:induction false} Fifo(ops: seq<Op>)
    requires FromTimetags(InsertedJobs(ops))
    ensures Run(ops).dispatched + Run(ops).pending == InsertedJobs(ops)
  {
    hide Inserted, DuePrefix;
    if ops != [] {
      var init := ops[..|ops| - 1];
      var s, op := Run(init), ops[|ops| - 1];
      match op
      case Insert(job) =>
        assert InsertedJobs(ops)[..|InsertedJobs(init)|] == InsertedJobs(init);
        assert job == InsertedJobs(ops)[|InsertedJobs(init)|];
        Fifo(init);
        InsertedLast(s, job, InsertedJobs(init));
      case Pass(now) =>
        Fifo(init);
        var n := DuePrefix(s.pending, now);
        assert s.dispatched + s.pending[..n] + s.pending[n..] == s.dispatched + s.pending;
    }
  }

  lemma InsertedLast(s: State, job: Job, before: seq<Job>)
    requires s.dispatched + s.pending == before && FromTimetags(before) && job.to.nsec == 0
    ensures s.dispatched + Inserted(s.pending, job) == before + [job]
  {
    forall i | 0 <= i < |s.pending|
      ensures !StopsBefore(s.pending[i], job)
    {
      assert s.pending[i] == before[|s.dispatched| + i];
    }
    InsertPosIs(s.pending, job, |s.pending|);
    assert s.pending[..|s.pending|] == s.pending;
  }

  ghost predicate InTimeOrder(jobs: seq<Job>) {
    forall i, j :: 0 <= i < j < |jobs| ==> jobs[i].to.sec <= jobs[j].to.sec
  }

  ghost predicate NoneDue(jobs: seq<Job>, now: Time) {
    forall i :: 0 <= i < |jobs| ==> !Due(jobs[i], now)
  }

  lemma DueBySeconds(job: Job, now: Time)
    requires job.to.nsec == 0 && 0 <= now.nsec < NSECS
    ensures Due(job, now) <==> job.to.sec <= now.sec
  {
    var d := (now.sec - job.to.sec) as real;
    if job.to.sec <= now.sec {
      assert d >= 0.0;
    } else {
      assert d <= -1.0;
    }
  }

  /**
   * A pass at any time leaves no due message behind exactly if the messages wait in the
   * order of their times: a message that is due waits behind an earlier one that is not.
   */
  lemma PassesAreCompleteIffInTimeOrder(jobs: seq<Job>)
    requires FromTimetags(jobs)
    ensures (forall now: Time :: 0 <= now.nsec < NSECS ==> NoneDue(jobs[DuePrefix(jobs, now)..], now))
            <==> InTimeOrder(jobs)
  {
    hide DuePrefix, Due;
    if InTimeOrder(jobs) {
      forall now: Time | 0 <= now.nsec < NSECS
        ensures NoneDue(jobs[DuePrefix(jobs, now)..], now)
      {
        var n := DuePrefix(jobs, now);
        DuePrefixIs(jobs, now);
        forall i | n <= i < |jobs|
          ensures !Due(jobs[i], now)
        {
          DueBySeconds(jobs[n], now);
          DueBySeconds(jobs[i], now);
        }
      }
    } else {
      var i, j :| 0 <= i < j < |jobs| && jobs[i].to.sec > jobs[j].to.sec;
      BlockedMessage(jobs, i, j);
    }
  }

  lemma BlockedMessage(jobs: seq<Job>, i: nat, j: nat)
    requires FromTimetags(jobs) && i < j < |jobs| && jobs[i].to.sec > jobs[j].to.sec
    ensures var now := Time(jobs[j].to.sec, 0);
      !NoneDue(jobs[DuePrefix(jobs, now)..], now)
  {
    hide DuePrefix, Due;
    var now := Time(jobs[j].to.sec, 0);
    DuePrefixIs(jobs, now);
    DueBySeconds(jobs[i], now);
    DueBySeconds(jobs[j], now);
    var n := DuePrefix(jobs, now);
    assert jobs[n..][j - n] == jobs[j];
  }
}
