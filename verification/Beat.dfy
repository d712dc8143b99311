// monobusd.c: one beat of the daemon, from the ring to the bus (_beat and what it calls).

module Beat {
  import opened Bytes
  import opened Osc
  import opened OscReader
  import opened OscBundle
  import opened Compositor
  import opened Canvas
  import opened Scheduler
  import Priority
  import RingLayout
  import RingProtocol
  import Varchunk
  import MonoBus
  import Wire

  /** LV2_OSC_IMMEDIATE */
  const IMMEDIATE: word64 := 1

  // ----- Which priority a path means -----

  /** "/monobus/" */
  const PREFIX: seq<byte> := [0x2F, 0x6D, 0x6F, 0x6E, 0x6F, 0x62, 0x75, 0x73, 0x2F]

  const MONOBUS: seq<byte> := [0x6D, 0x6F, 0x6E, 0x6F, 0x62, 0x75, 0x73]

  /** The names of tree_priority: decimal numbers. */
  function Name(n: nat): seq<byte>
    requires n < LAYERS
  {
    if n < 10 then [0x30 + n] else [0x30 + n / 10, 0x30 + n % 10]
  }

  predicate Digit(b: byte) {
    0x30 <= b < 0x3A
  }

  /** The priority that a path without pattern characters addresses. */
  function Target(path: seq<byte>): Option<nat> {
    if |path| < 9 || path[..9] != PREFIX then None
    else
      var s := path[9..];
      if |s| == 1 && Digit(s[0]) then Some(s[0] - 0x30)
      else if |s| == 2 && Digit(s[0]) && s[0] != 0x30 && Digit(s[1]) && 10 * (s[0] - 0x30) + (s[1] - 0x30) < LAYERS then
        Some(10 * (s[0] - 0x30) + (s[1] - 0x30))
      else None
  }

  lemma TargetIsNamed(path: seq<byte>, n: nat)
    requires n < LAYERS
    ensures Target(path) == Some(n) <==> path == PREFIX + Name(n)
  {
    if |path| >= 9 && path[..9] == PREFIX {
      assert path == PREFIX + path[9..];
      assert (PREFIX + Name(n))[9..] == Name(n);
    }
  }

  lemma TargetInRange(path: seq<byte>)
    ensures Target(path).Some? ==> Target(path).value < LAYERS
  {}

  /** No character that fnmatch, or the rewriting of braces before it, would treat specially. */
  predicate Literal(path: seq<byte>) {
    forall b :: b in path ==>
      b != '*' as int && b != '?' as int && b != '[' as int && b != '{' as int && b != '(' as int
  }

  // ----- What a message does -----

  /** The commands of one message; messages that cannot be read are not part of this model. */
  function Effect(msg: seq<byte>): seq<Command> {
    match ReadMessage(msg, 0, |msg|, |msg|)
    case None => []
    case Some(got) => EffectOf(got.value.path, got.value.args)
  }

  function EffectOf(path: seq<byte>, args: seq<Arg>): seq<Command> {
    match Target(path)
    case None => []
    case Some(n) => Priority.CommandsOf(n, args)
  }

  /** A path draws at the priority that it names in decimal, and only such paths draw. */
  lemma PathsDraw(n: nat, path: seq<byte>, args: seq<Arg>)
    requires n < 32
    ensures var digits := if n < 10 then [0x30 + n] else [0x30 + n / 10, 0x30 + n % 10];
      EffectOf([0x2F, 0x6D, 0x6F, 0x6E, 0x6F, 0x62, 0x75, 0x73, 0x2F] + digits, args) == Priority.CommandsOf(n, args)
    ensures (forall k: nat :: k < 32 ==> path != PREFIX + Name(k)) ==> EffectOf(path, args) == []
  {
    hide Priority.CommandsOf, Target;
    TargetIsNamed(PREFIX + Name(n), n);
    if Target(path).Some? {
      TargetInRange(path);
      TargetIsNamed(path, Target(path).value);
    }
  }

  /** "/monobus/11" */
  lemma PathOfEleven(args: seq<Arg>)
    ensures EffectOf([0x2F, 0x6D, 0x6F, 0x6E, 0x6F, 0x62, 0x75, 0x73, 0x2F, 0x31, 0x31], args)
            == Priority.CommandsOf(11, args)
  {
    PathsDraw(11, [], args);
    hide Priority.CommandsOf, EffectOf;
    assert [0x2F, 0x6D, 0x6F, 0x6E, 0x6F, 0x62, 0x75, 0x73, 0x2F] + [0x31, 0x31]
        == [0x2F, 0x6D, 0x6F, 0x6E, 0x6F, 0x62, 0x75, 0x73, 0x2F, 0x31, 0x31];
  }

  /** Messages as the daemon's clients send them, whose commands C defines. */
  ghost predicate Playable(path: seq<byte>, args: seq<Arg>) {
    && path != [] && path[0] == SLASH && NulFree(path) && Literal(path)
    && AllWellTyped(args) && AllProper(EffectOf(path, args))
  }

  ghost predicate Sound(msg: seq<byte>) {
    exists path, args :: Playable(path, args) && IsMessage(msg, path, args)
  }

  /** What is read from an encoded message has the effect of what was encoded. */
  lemma EffectIsOfMessage(msg: seq<byte>, path: seq<byte>, args: seq<Arg>)
    requires Playable(path, args) && IsMessage(msg, path, args)
    ensures Effect(msg) == EffectOf(path, args)
    ensures ReadMessage(msg, 0, |msg|, |msg|).Some?
    ensures var got := ReadMessage(msg, 0, |msg|, |msg|).value.value;
      got.path == path && EffectOf(got.path, got.args) == EffectOf(path, args)
  {
    hide Target, ReadMessage, Priority.Commands, IsMessage, Proper;
    MessagesHaveTheirSize(msg, path, args);
    assert msg[0..|msg|] == msg;
    MessageRoundTrip(msg, 0, path, args);
    var got := ReadMessage(msg, 0, |msg|, |msg|).value.value;
    if Target(path).Some? {
      Priority.CommandsSurviveTheWire(Target(path).value, Priority.WHOLE, false, args, got.args);
    }
  }

  /** strchr for a slash: its index, or the length. */
  method FindSlash(s: seq<byte>) returns (k: nat)
    ensures k <= |s| && (k < |s| ==> s[k] == SLASH) && forall i :: 0 <= i < k ==> s[i] != SLASH
  {
    k := 0;
    while k < |s| && s[k] != SLASH
      invariant k <= |s| && forall i :: 0 <= i < k ==> s[i] != SLASH
    {
      k := k + 1;
    }
  }

  /** _lv2_osc_trees_internal on tree_root and tree_priority. */
  method Match(canvas: Canvas, path: seq<byte>, args: seq<Arg>)
    requires canvas.Valid() && Playable(path, args)
    modifies canvas, canvas.pixels
    ensures canvas.Valid() && canvas.history == old(canvas.history) + EffectOf(path, args)
  {
    hide Target, EffectOf, Playable, Proper;
    PlayableStarts(path, args);
    var from := path[1..];
    var k := FindSlash(from);
    PathShape(path, k);
    NoEffect(path, args);
    assert old(canvas.history) + [] == old(canvas.history);
    if from[..k] == MONOBUS && k < |from| {
      var name := from[k + 1..];
      var next := FindSlash(name);
      if next == |name| {
        MatchPriority(canvas, path, name, args);
      } else {
        NotNamed(path, name, next);
      }
    }
  }

  lemma PlayableStarts(path: seq<byte>, args: seq<Arg>)
    requires Playable(path, args)
    ensures path != [] && path[0] == SLASH && AllProper(EffectOf(path, args))
  {}

  lemma NoEffect(path: seq<byte>, args: seq<Arg>)
    ensures Target(path) == None ==> EffectOf(path, args) == []
  {}

  /** Where the first slash behind the leading one is decides whether the path is below /monobus/. */
  lemma PathShape(path: seq<byte>, k: nat)
    requires path != [] && path[0] == SLASH && k <= |path| - 1
    requires k < |path| - 1 ==> path[1..][k] == SLASH
    requires forall i :: 0 <= i < k ==> path[1..][i] != SLASH
    ensures path[1..][..k] == MONOBUS && k < |path| - 1 ==> path == PREFIX + path[1..][k + 1..]
    ensures !(path[1..][..k] == MONOBUS && k < |path| - 1) ==> Target(path) == None
  {
    var from := path[1..];
    if Target(path).Some? {
      assert from[7] == path[..9][8] == SLASH;
      assert forall i :: 0 <= i < 7 ==> from[i] == path[..9][i + 1] == MONOBUS[i];
      assert from[..7] == MONOBUS && k == 7;
    }
    if from[..k] == MONOBUS && k < |from| {
      assert path == [path[0]] + from[..k] + [from[k]] + from[k + 1..];
      assert PREFIX == [SLASH] + MONOBUS + [SLASH];
    }
  }

  lemma NotNamed(path: seq<byte>, name: seq<byte>, k: nat)
    requires path == PREFIX + name && k < |name| && name[k] == SLASH
    ensures Target(path) == None
  {
    assert path[9..] == name;
  }

  /** The loop over tree_priority. */
  method MatchPriority(canvas: Canvas, path: seq<byte>, name: seq<byte>, args: seq<Arg>)
    requires canvas.Valid() && path == PREFIX + name && AllProper(EffectOf(path, args))
    modifies canvas, canvas.pixels
    ensures canvas.Valid() && canvas.history == old(canvas.history) + EffectOf(path, args)
  {
    hide Target, Priority.CommandsOf, Proper, Name;
    TargetInRange(path);
    ghost var was := canvas.history;
    assert was + [] == was;
    for n := 0 to LAYERS
      invariant canvas.Valid()
      invariant canvas.history == if Target(path).Some? &&
        Target(path).value < n then was + EffectOf(path, args) else was
    {
      TargetIsNamed(path, n);
      assert name == path[9..] && (PREFIX + Name(n))[9..] == Name(n);
      if name == Name(n) {
        Priority.HandleArgs(canvas, n, args);
      }
    }
  }

  /** _handle_osc_message */
  method HandleMessage(canvas: Canvas, msg: seq<byte>)
    requires canvas.Valid() && Sound(msg)
    modifies canvas, canvas.pixels
    ensures canvas.Valid() && canvas.history == old(canvas.history) + Effect(msg)
  {
    hide ReadMessage, EffectOf, IsMessage, Proper;
    ghost var path, args :| Playable(path, args) && IsMessage(msg, path, args);
    EffectIsOfMessage(msg, path, args);
    var reader := new Reader(msg, 0, |msg|);
    var message := reader.ReadMessageAt(|msg|);
    GotIsPlayable(msg, path, args);
    Match(canvas, message.value.path, message.value.args);
  }

  lemma GotIsPlayable(msg: seq<byte>, path: seq<byte>, args: seq<Arg>)
    requires Playable(path, args) && IsMessage(msg, path, args)
    ensures ReadMessage(msg, 0, |msg|, |msg|).Some?
    ensures var got := ReadMessage(msg, 0, |msg|, |msg|).value.value; Playable(got.path, got.args)
  {
    hide IsMessage, ReadMessage, EffectOf, Proper, Literal;
    EffectIsOfMessage(msg, path, args);
    MessagesHaveTheirSize(msg, path, args);
    assert msg[0..|msg|] == msg;
    MessageRoundTrip(msg, 0, path, args);
    var got := ReadMessage(msg, 0, |msg|, |msg|).value.value;
    forall i | 0 <= i < |got.args|
      ensures WellTyped(got.args[i])
    {
      assert ReadsAs(args[i], got.args[i]) && WellTyped(args[i]);
    }
  }

  // ----- Messages now, messages later -----

  /** What the daemon has drawn, and what waits for its time. */
  datatype World = World(drawn: seq<Command>, waiting: seq<Job>)

  function Handle(w: World, e: Event): World {
    if e.timetag == IMMEDIATE then w.(drawn := w.drawn + Effect(e.msg))
    else w.(waiting := Inserted(w.waiting, Job(TimeOf(e.timetag), e.msg)))
  }

  function HandleAll(w: World, events: seq<Event>): World {
    if events == [] then w else Handle(HandleAll(w, events[..|events| - 1]), events[|events| - 1])
  }

  /** The time tag 1 means at once; with any other one a message waits until the seconds of its tag. */
  lemma HandleMeans(w: World, e: Event)
    ensures e.timetag == 1 ==> Handle(w, e) == World(w.drawn + Effect(e.msg), w.waiting)
    ensures e.timetag != 1 ==>
            && Handle(w, e).drawn == w.drawn
            && exists job :: Handle(w, e).waiting == Inserted(w.waiting, job) && job.buf == e.msg
                             && job.to == Time(e.timetag / 0x1_0000_0000 - 2208988800, 0)
  {
    TimeOfTag(e.timetag);
    NanosecondsAreLost(e.timetag);
    hide Effect, Inserted, TimeOf;
    if e.timetag != 1 {
      var job := Job(TimeOf(e.timetag), e.msg);
      assert Handle(w, e).waiting == Inserted(w.waiting, job);
    }
  }

  lemma {:induction false} HandleConcat(w: World, a: seq<Event>, b: seq<Event>)
    ensures HandleAll(w, a + b) == HandleAll(HandleAll(w, a), b)
  {
    hide Handle;
    if b == [] {
      assert a + b == a;
    } else {
      HandleConcat(w, a, b[..|b| - 1]);
      assert (a + b)[..|a + b| - 1] == a + b[..|b| - 1];
    }
  }

  ghost predicate AllSound(jobs: seq<Job>) {
    forall i :: 0 <= i < |jobs| ==> Sound(jobs[i].buf)
  }

  ghost predicate SoundEvents(events: seq<Event>) {
    forall i :: 0 <= i < |events| ==> Sound(events[i].msg)
  }

  lemma InsertedSound(jobs: seq<Job>, job: Job)
    requires AllSound(jobs) && Sound(job.buf)
    ensures AllSound(Inserted(jobs, job))
  {
    hide Sound;
  }

  /** One event is handled as such; HandleConcat does the rest. */
  lemma HandleOne(w: World, e: Event)
    ensures HandleAll(w, []) == w && HandleAll(w, [e]) == Handle(w, e)
  {
    hide Handle;
    assert [e][..0] == [];
  }

  /** What _handle_osc_packet does with one message. */
  method HandleEvent(canvas: Canvas, schedule: Schedule, e: Event)
    requires canvas.Valid() && schedule.Valid() && Sound(e.msg) && AllSound(schedule.Pending())
    modifies canvas, canvas.pixels, schedule, schedule.nodes
    ensures canvas.Valid() && schedule.Valid() && AllSound(schedule.Pending())
    ensures World(canvas.history, schedule.Pending()) == Handle(old(World(canvas.history, schedule.Pending())), e)
    ensures forall i :: 0 <= i < |schedule.nodes| ==>
      schedule.nodes[i] in old(schedule.nodes) || fresh(schedule.nodes[i])
  {
    hide Effect, Sound, Inserted, TimeOf, Linked, Jobs;
    if e.timetag == IMMEDIATE {
      HandleMessage(canvas, e.msg);
    } else {
      InsertedSound(schedule.Pending(), Job(TimeOf(e.timetag), e.msg));
      schedule.Append(Job(TimeOf(e.timetag), e.msg));
    }
  }

  /** The messages of one packet. */
  method HandleEvents(canvas: Canvas, schedule: Schedule, events: seq<Event>)
    requires canvas.Valid() && schedule.Valid() && SoundEvents(events) && AllSound(schedule.Pending())
    modifies canvas, canvas.pixels, schedule, schedule.nodes
    ensures canvas.Valid() && schedule.Valid() && AllSound(schedule.Pending())
    ensures World(canvas.history, schedule.Pending()) ==
      HandleAll(old(World(canvas.history, schedule.Pending())), events)
    ensures forall i :: 0 <= i < |schedule.nodes| ==>
      schedule.nodes[i] in old(schedule.nodes) || fresh(schedule.nodes[i])
  {
    hide Handle, Sound, AllSound, Linked, Jobs, Canvas.Valid;
    ghost var w := World(canvas.history, schedule.Pending());
    assert events[..0] == [];
    for i := 0 to |events|
      invariant canvas.Valid() && schedule.Valid() && AllSound(schedule.Pending())
      invariant World(canvas.history, schedule.Pending()) == HandleAll(w, events[..i])
      invariant forall i :: 0 <= i < |schedule.nodes| ==>
        schedule.nodes[i] in old(schedule.nodes) || fresh(schedule.nodes[i])
    {
      assert events[..i + 1][..i] == events[..i];
      HandleEvent(canvas, schedule, events[i]);
    }
    assert events[..|events|] == events;
  }

  // ----- From the ring -----

  /** Packets that the daemon can handle. */
  ghost predicate Accepted(bs: seq<byte>) {
    Visit(IMMEDIATE, bs).Some? && SoundEvents(Visit(IMMEDIATE, bs).value)
  }

  ghost predicate AllAccepted(packets: seq<seq<byte>>) {
    forall i :: 0 <= i < |packets| ==> Accepted(packets[i])
  }

  function EventsOf(packets: seq<seq<byte>>): seq<Event> {
    if packets == [] then []
    else
      var init := EventsOf(packets[..|packets| - 1]);
      match Visit(IMMEDIATE, packets[|packets| - 1])
      case None => init
      case Some(events) => init + events
  }

  lemma OneMorePacket(w: World, packets: seq<seq<byte>>, k: nat)
    requires k < |packets| && Accepted(packets[k])
    ensures Visit(IMMEDIATE, packets[k]).Some?
    ensures HandleAll(w, EventsOf(packets[..k + 1]))
      == HandleAll(HandleAll(w, EventsOf(packets[..k])), Visit(IMMEDIATE, packets[k]).value)
  {
    hide Visit, HandleAll;
    assert packets[..k + 1][..k] == packets[..k];
    HandleConcat(w, EventsOf(packets[..k]), Visit(IMMEDIATE, packets[k]).value);
  }

  /** One round of the loop over the ring: a packet is handled where it lies, and then released. */
  method HandleNext(ring: Varchunk.Varchunk, canvas: Canvas, schedule: Schedule) returns (more: bool)
    requires ring.Valid() && ring.consumer.Resting? && canvas.Valid() && schedule.Valid()
    requires ring.Contents() != [] ==> Accepted(ring.Contents()[0])
    requires AllSound(schedule.Pending())
    modifies ring, canvas, canvas.pixels, schedule, schedule.nodes
    ensures ring.Valid() && ring.consumer.Resting? && more == (old(ring.Contents()) != [])
    ensures ring.producer == old(ring.producer)
    ensures ring.Contents() == if more then old(ring.Contents())[1..] else []
    ensures canvas.Valid() && schedule.Valid() && AllSound(schedule.Pending())
    ensures World(canvas.history, schedule.Pending()) ==
      if more then HandleAll(old(World(canvas.history, schedule.Pending())),
        Visit(IMMEDIATE, old(ring.Contents())[0]).value)
      else old(World(canvas.history, schedule.Pending()))
    ensures forall i :: 0 <= i < |schedule.nodes| ==>
      schedule.nodes[i] in old(schedule.nodes) || fresh(schedule.nodes[i])
  {
    hide Visit, HandleAll, AllSound, SoundEvents, Linked, Jobs, Canvas.Valid, RingProtocol.Inv, RingLayout.IsPow2,
         Varchunk.Released, Varchunk.ReadRequested;
    var buf, len := ring.ReadRequest();
    if buf == None {
      return false;
    }
    var events := HandlePacket(IMMEDIATE, ring.buf[buf.value..buf.value + len]);
    HandleEvents(canvas, schedule, events);
    ring.ReadAdvance();
    return true;
  }

  /** That loop. */
  method HandleRing(ring: Varchunk.Varchunk, canvas: Canvas, schedule: Schedule)
    requires ring.Valid() && ring.consumer.Resting? && canvas.Valid() && schedule.Valid()
    requires AllAccepted(ring.Contents()) && AllSound(schedule.Pending())
    modifies ring, canvas, canvas.pixels, schedule, schedule.nodes
    ensures ring.Valid() && ring.consumer.Resting? && ring.Contents() == [] && ring.producer == old(ring.producer)
    ensures canvas.Valid() && schedule.Valid() && AllSound(schedule.Pending())
    ensures World(canvas.history, schedule.Pending())
      == HandleAll(old(World(canvas.history, schedule.Pending())), EventsOf(old(ring.Contents())))
    ensures forall i :: 0 <= i < |schedule.nodes| ==>
      schedule.nodes[i] in old(schedule.nodes) || fresh(schedule.nodes[i])
  {
    hide HandleAll, AllSound, Accepted, Linked, Jobs, EventsOf, Canvas.Valid, RingProtocol.Inv, RingLayout.IsPow2;
    ghost var w, all, k := World(canvas.history, schedule.Pending()), ring.Contents(), 0;
    assert all[0..] == all && all[..0] == [] && all[..|all|] == all;
    NothingHandled(w);
    var more := true;
    while more
      invariant 0 <= k <= |all| && ring.Valid() && ring.consumer.Resting? && ring.Contents() == all[k..]
      invariant ring.producer == old(ring.producer)
      invariant !more ==> k == |all|
      invariant canvas.Valid() && schedule.Valid() && AllSound(schedule.Pending())
      invariant World(canvas.history, schedule.Pending()) == HandleAll(w, EventsOf(all[..k]))
      invariant forall i :: 0 <= i < |schedule.nodes| ==>
        schedule.nodes[i] in old(schedule.nodes) || fresh(schedule.nodes[i])
      decreases |all| - k, more
    {
      if k < |all| {
        OneMorePacket(w, all, k);
      }
      more := HandleNext(ring, canvas, schedule);
      if more {
        k := k + 1;
      }
    }
  }

  lemma NothingHandled(w: World)
    ensures HandleAll(w, EventsOf([])) == w
  {}

  /** One packet yields the events that are visited in it. */
  lemma EventsOfOne(bs: seq<byte>)
    requires Visit(1, bs).Some?
    ensures EventsOf([]) == [] && EventsOf([bs]) == Visit(1, bs).value
  {
    hide Visit;
    assert [bs][..0] == [];
    assert [] + Visit(1, bs).value == Visit(1, bs).value;
  }

  // ----- When their time has come -----

  function Effects(jobs: seq<Job>): seq<Command> {
    if jobs == [] then [] else Effects(jobs[..|jobs| - 1]) + Effect(jobs[|jobs| - 1].buf)
  }

  /** Due messages go through _handle_osc_packet again, now as immediate ones. */
  method HandleDue(canvas: Canvas, schedule: Schedule, now: Time)
    requires canvas.Valid() && schedule.Valid() && AllSound(schedule.Pending())
    modifies canvas, canvas.pixels, schedule
    ensures canvas.Valid() && schedule.Valid() && AllSound(schedule.Pending())
    ensures World(canvas.history, schedule.Pending()) == AfterDue(old(World(canvas.history, schedule.Pending())), now)
    ensures forall i :: 0 <= i < |schedule.nodes| ==> schedule.nodes[i] in old(schedule.nodes)
  {
    hide Effect, Visit, Sound, Linked, Jobs, DuePrefix;
    ghost var was := canvas.history;
    var jobs := schedule.DispatchDue(now);
    assert jobs[..0] == [] && was + [] == was;
    for i := 0 to |jobs|
      invariant canvas.Valid() && schedule.Valid() && canvas.history == was + Effects(jobs[..i])
      invariant schedule.Pending() == old(schedule.Pending())[|jobs|..]
      invariant forall i :: 0 <= i < |schedule.nodes| ==> schedule.nodes[i] in old(schedule.nodes)
    {
      assert jobs[..i + 1][..i] == jobs[..i] && jobs[i] == old(schedule.Pending())[i];
      SoundIsVisited(jobs[i].buf);
      var events := HandlePacket(IMMEDIATE, jobs[i].buf);
      HandleMessage(canvas, events[0].msg);
    }
    assert jobs[..|jobs|] == jobs;
  }

  /** A stored message is a packet of that one message. */
  lemma SoundIsVisited(msg: seq<byte>)
    requires Sound(msg)
    ensures Visit(IMMEDIATE, msg) == Some([Event(IMMEDIATE, msg)])
  {
    hide IsMessage, Literal, EffectOf, AllWellTyped;
    var path, args :| Playable(path, args) && IsMessage(msg, path, args);
    MessageIsVisited(IMMEDIATE, msg, path, args);
  }

  // ----- The beat -----

  /** What becomes of the drawing and the waiting messages when those that are due are handled. */
  function AfterDue(w: World, now: Time): World {
    var n := DuePrefix(w.waiting, now);
    World(w.drawn + Effects(w.waiting[..n]), w.waiting[n..])
  }

  function AfterBeat(w: World, packets: seq<seq<byte>>, now: Time): World {
    AfterDue(HandleAll(w, EventsOf(packets)), now)
  }

  /** The first half of a round: the messages. */
  method HandleMessages(ring: Varchunk.Varchunk, canvas: Canvas, schedule: Schedule, now: Time)
    requires ring.Valid() && ring.consumer.Resting? && canvas.Valid() && schedule.Valid()
    requires AllAccepted(ring.Contents()) && AllSound(schedule.Pending())
    modifies ring, canvas, canvas.pixels, schedule, schedule.nodes
    ensures ring.Valid() && ring.consumer.Resting? && ring.Contents() == [] && ring.producer == old(ring.producer)
    ensures canvas.Valid() && schedule.Valid() && AllSound(schedule.Pending())
    ensures World(canvas.history, schedule.Pending())
      == AfterBeat(old(World(canvas.history, schedule.Pending())), old(ring.Contents()), now)
    ensures forall i :: 0 <= i < |schedule.nodes| ==>
      schedule.nodes[i] in old(schedule.nodes) || fresh(schedule.nodes[i])
  {
    hide HandleAll, EventsOf, Accepted, AllSound, AfterDue, Linked, Jobs, RingProtocol.Inv, RingLayout.IsPow2,
         Canvas.Valid;
    HandleRing(ring, canvas, schedule);
    HandleDue(canvas, schedule, now);
  }

  /**
   * One round of the loop in _beat: what came through the ring, what has become due, the
   * picture of all commands so far on its way to the bus, and the time of the next round.
   */
  method Beat(ring: Varchunk.Varchunk, canvas: Canvas, schedule: Schedule, now: Time, step: nat,
              bitmap: array<byte>, dst: array<byte>) returns (sent: seq<byte>, next: Time)
    requires ring.Valid() && ring.consumer.Resting? && canvas.Valid() && schedule.Valid()
    requires AllAccepted(ring.Contents()) && AllSound(schedule.Pending())
    requires 0 <= now.nsec < NSECS && bitmap.Length == Wire.LENGTH_SER && dst.Length == 512
    requires dst != bitmap && dst != ring.buf && bitmap != ring.buf
    modifies ring, canvas, canvas.pixels, schedule, schedule.nodes, bitmap, dst
    ensures ring.Valid() && ring.consumer.Resting? && ring.Contents() == [] && ring.producer == old(ring.producer)
    ensures canvas.Valid() && schedule.Valid() && AllSound(schedule.Pending())
    ensures World(canvas.history, schedule.Pending())
      == AfterBeat(old(World(canvas.history, schedule.Pending())), old(ring.Contents()), now)
    ensures Wire.Rotated(bitmap[..], canvas.history) && sent == MonoBus.OnTheBus(Wire.Round(bitmap[..]))
    ensures 0 <= next.nsec < NSECS && Nanoseconds(next) == Nanoseconds(now) + step
    ensures forall i :: 0 <= i < |schedule.nodes| ==>
      schedule.nodes[i] in old(schedule.nodes) || fresh(schedule.nodes[i])
  {
    hide AfterBeat, AllSound, Accepted, Linked, Jobs, Wire.Rotated, MonoBus.OnTheBus, Nanoseconds, RingProtocol.Inv,
         RingLayout.IsPow2, Canvas.Valid;
    HandleMessages(ring, canvas, schedule, now);
    sent := Wire.SendRound(canvas, bitmap, dst);
    next := NextBeat(now, step);
  }

  // ----- What that means for the trees that clients send -----

  ghost predicate AllPlayable(leaves: seq<Leaf>) {
    forall i :: 0 <= i < |leaves| ==> Playable(leaves[i].path, leaves[i].args)
  }

  /** The commands of the messages that are to be handled immediately. */
  function DrawnNow(leaves: seq<Leaf>): seq<Command> {
    if leaves == [] then []
    else
      var init, leaf := DrawnNow(leaves[..|leaves| - 1]), leaves[|leaves| - 1];
      if leaf.timetag == IMMEDIATE then init + EffectOf(leaf.path, leaf.args) else init
  }

  /** The other messages, in order. */
  function Deferred(leaves: seq<Leaf>): seq<Leaf> {
    if leaves == [] then []
    else
      var init, leaf := Deferred(leaves[..|leaves| - 1]), leaves[|leaves| - 1];
      if leaf.timetag == IMMEDIATE then init else init + [leaf]
  }

  /** A message with the time tag 1 is drawn, any other one is deferred. */
  lemma LeafByLeaf(leaf: Leaf, p: Packet)
    ensures DrawnNow([]) == [] && Deferred([]) == [] && AllLeaves([]) == []
    ensures leaf.timetag == 1 ==> DrawnNow([leaf]) == EffectOf(leaf.path, leaf.args) && Deferred([leaf]) == []
    ensures leaf.timetag != 1 ==> DrawnNow([leaf]) == [] && Deferred([leaf]) == [leaf]
    ensures AllLeaves([p]) == Leaves(1, p)
  {
    hide EffectOf, Leaves;
    assert [leaf][..0] == [] && [p][..0] == [];
    assert [] + EffectOf(leaf.path, leaf.args) == EffectOf(leaf.path, leaf.args);
    assert [] + Leaves(1, p) == Leaves(1, p);
  }

  ghost predicate WaitsFor(job: Job, leaf: Leaf) {
    job.to == TimeOf(leaf.timetag) && IsMessage(job.buf, leaf.path, leaf.args)
  }

  ghost predicate AllWaitFor(jobs: seq<Job>, leaves: seq<Leaf>) {
    |jobs| == |leaves| && forall i :: 0 <= i < |jobs| ==> WaitsFor(jobs[i], leaves[i])
  }

  /** Immediate messages have drawn, in order; the others line up behind those that waited already, in order too. */
  ghost predicate Follows(w: World, w': World, leaves: seq<Leaf>) {
    var n := |w.waiting|;
    && w'.drawn == w.drawn + DrawnNow(leaves)
    && n <= |w'.waiting| && w'.waiting[..n] == w.waiting && AllWaitFor(w'.waiting[n..], Deferred(leaves))
    && FromTimetags(w'.waiting)
  }

  lemma {:induction false} LeavesHandled(w: World, events: seq<Event>, leaves: seq<Leaf>)
    requires AllCarry(events, leaves) && AllPlayable(leaves) && FromTimetags(w.waiting)
    ensures Follows(w, HandleAll(w, events), leaves)
  {
    hide Follows, Handle, Playable, Carries;
    if events == [] {
      NothingFollows(w);
    } else {
      var k := |events| - 1;
      LeavesHandled(w, events[..k], leaves[..k]);
      OneFollows(w, HandleAll(w, events[..k]), events[k], leaves);
    }
  }

  lemma NothingFollows(w: World)
    requires FromTimetags(w.waiting)
    ensures Follows(w, w, [])
  {
    assert w.drawn + [] == w.drawn && w.waiting[..|w.waiting|] == w.waiting;
  }

  lemma OneFollows(w: World, w1: World, e: Event, leaves: seq<Leaf>)
    requires leaves != [] && Follows(w, w1, leaves[..|leaves| - 1])
    requires var leaf := leaves[|leaves| - 1]; Carries(e, leaf) && Playable(leaf.path, leaf.args)
    ensures Follows(w, Handle(w1, e), leaves)
  {
    hide Follows, Handle, Playable, Carries;
    if e.timetag == IMMEDIATE {
      OneDraws(w, w1, e, leaves);
    } else {
      OneWaits(w, w1, e, leaves);
    }
  }

  lemma LastLeaf(leaves: seq<Leaf>)
    requires leaves != []
    ensures var init, leaf := leaves[..|leaves| - 1], leaves[|leaves| - 1];
      if leaf.timetag == IMMEDIATE then
        DrawnNow(leaves) == DrawnNow(init) + EffectOf(leaf.path, leaf.args) && Deferred(leaves) == Deferred(init)
      else
        DrawnNow(leaves) == DrawnNow(init) && Deferred(leaves) == Deferred(init) + [leaf]
  {
    hide EffectOf;
  }

  lemma OneDraws(w: World, w1: World, e: Event, leaves: seq<Leaf>)
    requires leaves != [] && Follows(w, w1, leaves[..|leaves| - 1]) && e.timetag == IMMEDIATE
    requires var leaf := leaves[|leaves| - 1]; Carries(e, leaf) && Playable(leaf.path, leaf.args)
    ensures Follows(w, Handle(w1, e), leaves)
  {
    hide Effect, EffectOf, Playable, IsMessage, Carries, Handle, AllWaitFor, FromTimetags, DrawnNow, Deferred;
    var init, leaf := leaves[..|leaves| - 1], leaves[|leaves| - 1];
    LastLeaf(leaves);
    HandleNow(w1, e, leaf);
    CommandsAssociate(w.drawn, DrawnNow(init), EffectOf(leaf.path, leaf.args));
  }

  lemma HandleNow(w: World, e: Event, leaf: Leaf)
    requires e.timetag == IMMEDIATE && Carries(e, leaf) && Playable(leaf.path, leaf.args)
    ensures leaf.timetag == IMMEDIATE
    ensures Handle(w, e) == World(w.drawn + EffectOf(leaf.path, leaf.args), w.waiting)
  {
    hide Effect, EffectOf, Playable, IsMessage, Inserted, TimeOf;
    EffectIsOfMessage(e.msg, leaf.path, leaf.args);
  }

  lemma CommandsAssociate(a: seq<Command>, b: seq<Command>, c: seq<Command>)
    ensures a + b + c == a + (b + c)
  {}

  lemma OneWaits(w: World, w1: World, e: Event, leaves: seq<Leaf>)
    requires leaves != [] && Follows(w, w1, leaves[..|leaves| - 1]) && e.timetag != IMMEDIATE
    requires Carries(e, leaves[|leaves| - 1])
    ensures Follows(w, Handle(w1, e), leaves)
  {
    hide Effect, EffectOf, Inserted, TimeOf, IsMessage, AllWaitFor, FromTimetags, DrawnNow, Deferred;
    var init, leaf := leaves[..|leaves| - 1], leaves[|leaves| - 1];
    LastLeaf(leaves);
    var job, n := Job(TimeOf(e.timetag), e.msg), |w.waiting|;
    LinesUp(w1.waiting, e);
    assert (w1.waiting + [job])[..n] == w1.waiting[..n] && (w1.waiting + [job])[n..] == w1.waiting[n..] + [job];
    OneMoreWaits(w1.waiting[n..], Deferred(init), job, leaf);
  }

  lemma OneMoreWaits(jobs: seq<Job>, leaves: seq<Leaf>, job: Job, leaf: Leaf)
    requires AllWaitFor(jobs, leaves) && WaitsFor(job, leaf)
    ensures AllWaitFor(jobs + [job], leaves + [leaf])
  {
    hide WaitsFor;
  }

  lemma LinesUp(waiting: seq<Job>, e: Event)
    requires FromTimetags(waiting)
    ensures var job := Job(TimeOf(e.timetag), e.msg);
      Inserted(waiting, job) == waiting + [job] && FromTimetags(waiting + [job])
  {
    NanosecondsAreLost(e.timetag);
    hide Inserted, TimeOf;
    InsertedLast(State(waiting, []), Job(TimeOf(e.timetag), e.msg), waiting);
    assert [] + waiting == waiting;
  }

  ghost predicate AllEncode(packets: seq<seq<byte>>, ps: seq<Packet>) {
    |packets| == |ps| && forall i :: 0 <= i < |ps| ==> IsPacket(packets[i], ps[i]) && Rooted(ps[i])
  }

  /** All messages of all packets, with their time tags; a message outside of bundles is immediate. */
  function AllLeaves(ps: seq<Packet>): seq<Leaf> {
    if ps == [] then [] else AllLeaves(ps[..|ps| - 1]) + Leaves(IMMEDIATE, ps[|ps| - 1])
  }

  lemma {:induction false} EventsCarryLeaves(packets: seq<seq<byte>>, ps: seq<Packet>)
    requires AllEncode(packets, ps)
    ensures AllCarry(EventsOf(packets), AllLeaves(ps))
  {
    hide Visit, Leaves, AllCarry, IsPacket, Rooted;
    if ps == [] {
      NothingCarries();
    } else {
      var k := |ps| - 1;
      EventsCarryLeaves(packets[..k], ps[..k]);
      BundleRoundTrip(IMMEDIATE, packets[k], ps[k]);
      AllCarryConcat(EventsOf(packets[..k]), AllLeaves(ps[..k]), Visit(IMMEDIATE, packets[k]).value,
        Leaves(IMMEDIATE, ps[k]));
    }
  }

  /** So a beat does with encoded trees of any depth what their messages say, in order. */
  lemma PacketsHandled(w: World, packets: seq<seq<byte>>, ps: seq<Packet>)
    requires AllEncode(packets, ps) && AllPlayable(AllLeaves(ps)) && FromTimetags(w.waiting)
    ensures AllAccepted(packets)
    ensures Follows(w, HandleAll(w, EventsOf(packets)), AllLeaves(ps))
  {
    EventsCarryLeaves(packets, ps);
    LeavesHandled(w, EventsOf(packets), AllLeaves(ps));
    hide HandleAll, EventsOf, AllCarry, Visit, IsPacket, Rooted, Playable, Sound, Follows;
    forall i | 0 <= i < |packets|
      ensures Accepted(packets[i])
    {
      PacketAccepted(packets, ps, i);
    }
  }

  lemma PacketAccepted(packets: seq<seq<byte>>, ps: seq<Packet>, i: nat)
    requires AllEncode(packets, ps) && AllPlayable(AllLeaves(ps)) && i < |ps|
    ensures Accepted(packets[i])
  {
    hide Visit, Leaves, IsPacket, Rooted, Playable, IsMessage;
    BundleRoundTrip(IMMEDIATE, packets[i], ps[i]);
    LeavesAmongAll(ps, i);
    var events, leaves := Visit(IMMEDIATE, packets[i]).value, Leaves(IMMEDIATE, ps[i]);
    forall j | 0 <= j < |events|
      ensures Sound(events[j].msg)
    {
      assert Carries(events[j], leaves[j]);
      assert leaves[j] in AllLeaves(ps);
    }
  }

  lemma {:induction false} LeavesAmongAll(ps: seq<Packet>, i: nat)
    requires i < |ps|
    ensures forall leaf :: leaf in Leaves(IMMEDIATE, ps[i]) ==> leaf in AllLeaves(ps)
  {
    hide Leaves;
    if i < |ps| - 1 {
      LeavesAmongAll(ps[..|ps| - 1], i);
    }
  }
}
