// Nested bundles: the frames of osc.lv2/osc.lv2/writer.h, the items of osc.lv2/osc.lv2/reader.h,
// and the dispatch of their messages in monobusd.c.

module OscBundle {
  import opened Bytes
  import opened Osc
  import opened OscWriter
  import opened OscReader

  datatype Packet =
    | Msg(path: seq<byte>, args: seq<Arg>)
    | Bundle(timetag: word64, items: seq<Packet>)

  /** "#bundle" with its terminating zero */
  const BUNDLE: seq<byte> := [0x23, 0x62, 0x75, 0x6E, 0x64, 0x6C, 0x65, 0]

  function PacketSize(p: Packet): (n: nat)
    ensures n >= 8
    decreases p, 1
  {
    match p
    case Msg(path, args) => MessageSize(path, args)
    case Bundle(_, items) => 16 + ItemsSize(items)
  }

  function ItemsSize(items: seq<Packet>): (n: nat)
    ensures items != [] ==> n >= 12
    decreases items, 0
  {
    if items == [] then 0 else 4 + PacketSize(items[0]) + ItemsSize(items[1..])
  }

  /** The bytes encode the packet; each item of a bundle comes behind its size. */
  predicate IsPacket(bs: seq<byte>, p: Packet)
    decreases p, 1
  {
    match p
    case Msg(path, args) => IsMessage(bs, path, args)
    case Bundle(timetag, items) =>
      |bs| >= 16 && bs[..8] == BUNDLE && bs[8..16] == Be64(timetag) && IsItems(bs[16..], items)
  }

  predicate IsItems(bs: seq<byte>, items: seq<Packet>)
    decreases items, 0
  {
    if items == [] then bs == []
    else
      var n := PacketSize(items[0]);
      && 4 + n <= |bs| && n < 0x8000_0000
      && bs[..4] == Be32(n)
      && IsPacket(bs[4..4 + n], items[0])
      && IsItems(bs[4 + n..], items[1..])
  }

  /** What C strings and typed arguments guarantee, throughout the tree. */
  predicate Typed(p: Packet)
    decreases p, 1
  {
    match p
    case Msg(path, args) => NulFree(path) && AllWellTyped(args)
    case Bundle(_, items) => AllTyped(items)
  }

  predicate AllTyped(items: seq<Packet>)
    decreases items, 0
  {
    items == [] || (Typed(items[0]) && AllTyped(items[1..]))
  }

  /** What the writer refuses whatever the capacity: long MIDI events, and bundles without items. */
  predicate Writable(p: Packet)
    decreases p, 1
  {
    match p
    case Msg(_, args) => AllEncodable(args)
    case Bundle(_, items) => items != [] && AllWritable(items)
  }

  predicate AllWritable(items: seq<Packet>)
    decreases items, 0
  {
    items == [] || (Writable(items[0]) && AllWritable(items[1..]))
  }

  /** Bundles have to have items, and messages no long MIDI events; nothing else is refused whatever the room. */
  lemma WritableMeans(timetag: word64, path: seq<byte>, args: seq<Arg>, p: Packet, items: seq<Packet>)
    ensures !Writable(Bundle(timetag, []))
    ensures Writable(Bundle(timetag, [p] + items)) <==>
            Writable(p) && (items == [] || Writable(Bundle(timetag, items)))
    ensures Writable(Msg(path, args)) <==> forall i :: 0 <= i < |args| && args[i].Midi? ==> |args[i].m| <= 4
  {
    var all := [p] + items;
    assert all[1..] == items && all[0] == p;
    assert AllWritable(all) == (Writable(p) && AllWritable(items));
    assert Writable(Bundle(timetag, all)) == AllWritable(all);
    assert items == [] ==> AllWritable(items);
  }

  // ----- Writing -----

  /** lv2_osc_writer_push_bundle, with the frame's reference as an index. */
  method PushBundle(w: Writer, t: word64) returns (ok: bool, ref: nat)
    requires w.Valid()
    modifies w`ptr, w.buf
    ensures w.Valid() && ref == old(w.ptr) && ok == Room(ref, 16, w.end)
    ensures w.ptr == if ok then ref + 16 else ref
    ensures Within(old(w.buf[..]), w.buf[..], ref, w.ptr)
    ensures ok ==> w.buf[ref..ref + 8] == BUNDLE && w.buf[ref + 8..ref + 16] == Be64(t)
  {
    hide Within, Be64;
    ref := w.ptr;
    NothingWritten(w.buf[..], ref);
    if w.Overflow(16) {
      return false, ref;
    }
    ghost var was := w.buf[..];
    w.Append(BUNDLE);
    ghost var mid := w.buf[..];
    ok := w.HtoBe64(t);
    WithinTrans(was, mid, w.buf[..], ref, ref + 8, ref + 16);
  }

  lemma NothingWritten(bs: seq<byte>, at: nat)
    requires at <= |bs|
    ensures Within(bs, bs, at, at)
  {}

  /** lv2_osc_writer_pop_bundle: a bundle without items is taken back. */
  method PopBundle(w: Writer, ref: nat) returns (ok: bool)
    requires w.Valid() && ref + 16 <= w.ptr
    modifies w`ptr
    ensures w.Valid() && ok == (old(w.ptr) > ref + 16) && w.ptr == if ok then old(w.ptr) else ref
  {
    var size := w.ptr - ref - 16;
    if size <= 0 {
      w.ptr := ref;
      return false;
    }
    return true;
  }

  /** lv2_osc_writer_push_item */
  method PushItem(w: Writer) returns (ok: bool, ref: nat)
    requires w.Valid()
    modifies w`ptr
    ensures w.Valid() && ref == old(w.ptr) && ok == Room(ref, 4, w.end) && w.ptr == if ok then ref + 4 else ref
  {
    ref := w.ptr;
    if w.Overflow(4) {
      return false, ref;
    }
    w.ptr := w.ptr + 4;
    return true, ref;
  }

  /** lv2_osc_writer_pop_item: the size goes back to the place that was left for it. */
  method PopItem(w: Writer, ref: nat) returns (ok: bool)
    requires w.Valid() && ref + 4 <= w.ptr
    modifies w`ptr, w.buf
    ensures w.Valid() && ok == (old(w.ptr) > ref + 4) && w.ptr == if ok then old(w.ptr) else ref
    ensures Within(old(w.buf[..]), w.buf[..], ref, ref + 4)
    ensures ok ==> w.buf[ref..ref + 4] == Be32(w.ptr - ref - 4)
    ensures !ok ==> w.buf[..] == old(w.buf[..])
  {
    var size := w.ptr - ref - 4;
    if size <= 0 {
      w.ptr := ref;
      return false;
    }
    var bs := Be32(size);
    forall i | 0 <= i < 4 {
      w.buf[ref + i] := bs[i];
    }
    return true;
  }

  /**
   * Writing a tree of bundles and messages with these frames, as the bundle branch of
   * lv2_osc_writer_packet does. It succeeds exactly if the packet is shorter than the
   * room that is left, and every size that was filled in later is the length of its item.
   */
  method WritePacket(w: Writer, p: Packet) returns (ok: bool)
    requires w.Valid() && Typed(p)
    modifies w`ptr, w.buf
    ensures w.Valid() && old(w.ptr) <= w.end
    ensures ok <==> Writable(p) && old(w.ptr) + PacketSize(p) < w.end
    ensures ok ==> w.ptr == old(w.ptr) + PacketSize(p) && IsPacket(w.buf[old(w.ptr)..w.ptr], p)
    ensures Within(old(w.buf[..]), w.buf[..], old(w.ptr), w.end)
    decreases p, 1
  {
    hide IsMessage, MessageSize, AllWellTyped, AllEncodable, NulFree, IsItems, ItemsSize, AllTyped, AllWritable, Be64;
    match p {
      case Msg(path, args) =>
        ok := w.MessageVarlist(path, args);
      case Bundle(timetag, items) =>
        SizeOfItems(items);
        ghost var was := w.buf[..];
        var ref;
        ok, ref := PushBundle(w, timetag);
        if !ok {
          return;
        }
        ghost var mid := w.buf[..];
        ok := WriteItems(w, items);
        WithinTrans(was, mid, w.buf[..], ref, ref + 16, w.end);
        if !ok {
          return;
        }
        BundleHead(mid, w.buf[..], ref, w.ptr);
        ok := PopBundle(w, ref);
    }
  }

  lemma SizeOfItems(items: seq<Packet>)
    ensures ItemsSize(items) == 0 <==> items == []
  {}

  lemma BundleHead(mid: seq<byte>, now: seq<byte>, ref: nat, end: nat)
    requires ref + 16 <= end <= |now| == |mid| && now[ref..ref + 16] == mid[ref..ref + 16]
    ensures now[ref..end][..8] == mid[ref..ref + 8] && now[ref..end][8..16] == mid[ref + 8..ref + 16]
    ensures now[ref..end][16..] == now[ref + 16..end]
  {
    SliceOfSlice(now, ref, end, 0, 8);
    SliceOfSlice(now, ref, end, 8, 16);
    SliceOfSlice(now, ref, end, 16, end - ref);
    SliceOfSlice(now, ref, ref + 16, 0, 8);
    SliceOfSlice(now, ref, ref + 16, 8, 16);
    SliceOfSlice(mid, ref, ref + 16, 0, 8);
    SliceOfSlice(mid, ref, ref + 16, 8, 16);
  }

  /** The loop over the items of a bundle. */
  method WriteItems(w: Writer, items: seq<Packet>) returns (ok: bool)
    requires w.Valid() && AllTyped(items)
    modifies w`ptr, w.buf
    ensures w.Valid() && old(w.ptr) <= w.end
    ensures ok <==> AllWritable(items) && Room(old(w.ptr), ItemsSize(items), w.end)
    ensures ok ==> w.ptr == old(w.ptr) + ItemsSize(items) && IsItems(w.buf[old(w.ptr)..w.ptr], items)
    ensures Within(old(w.buf[..]), w.buf[..], old(w.ptr), w.end)
    decreases items, 0
  {
    hide PacketSize, IsPacket, Be32, Writable, Typed;
    if items == [] {
      return true;
    }
    ghost var was, start := w.buf[..], w.ptr;
    ok := WriteItem(w, items[0]);
    if !ok {
      return;
    }
    ghost var mid, at := w.buf[..], w.ptr;
    ok := WriteItems(w, items[1..]);
    WithinTrans(was, mid, w.buf[..], start, at, w.end);
    if ok {
      ItemsJoin(mid, w.buf[..], start, at, w.ptr, items);
    }
  }

  lemma ItemsJoin(mid: seq<byte>, now: seq<byte>, start: nat, at: nat, end: nat, items: seq<Packet>)
    requires items != [] && at == start + 4 + PacketSize(items[0]) <= end <= |now| == |mid|
    requires end < 0x8000_0000 && now[start..at] == mid[start..at]
    requires mid[start..start + 4] == Be32(PacketSize(items[0])) && IsPacket(mid[start + 4..at], items[0])
    requires IsItems(now[at..end], items[1..])
    ensures IsItems(now[start..end], items)
  {
    hide PacketSize, IsPacket, Be32;
    SliceOfSlice(now, start, at, 0, 4);
    SliceOfSlice(mid, start, at, 0, 4);
    SliceOfSlice(now, start, at, 4, at - start);
    SliceOfSlice(mid, start, at, 4, at - start);
    SliceOfSlice(now, start, end, 0, 4);
    SliceOfSlice(now, start, end, 4, at - start);
    SliceOfSlice(now, start, end, at - start, end - start);
  }

  /** An item: its packet behind its size, which is filled in afterwards. */
  method WriteItem(w: Writer, item: Packet) returns (ok: bool)
    requires w.Valid() && Typed(item)
    modifies w`ptr, w.buf
    ensures w.Valid() && old(w.ptr) <= w.end
    ensures ok <==> Writable(item) && old(w.ptr) + 4 + PacketSize(item) < w.end
    ensures ok ==> w.ptr == old(w.ptr) + 4 + PacketSize(item)
    ensures ok ==> w.buf[old(w.ptr)..old(w.ptr) + 4] == Be32(PacketSize(item))
    ensures ok ==> IsPacket(w.buf[old(w.ptr) + 4..w.ptr], item)
    ensures Within(old(w.buf[..]), w.buf[..], old(w.ptr), w.end)
    decreases item, 2
  {
    hide IsPacket, Writable, Typed, Be32;
    ghost var was := w.buf[..];
    var ref;
    ok, ref := PushItem(w);
    if !ok {
      return;
    }
    ok := WritePacket(w, item);
    ghost var mid := w.buf[..];
    WithinWider(was, mid, ref + 4, ref, w.end);
    if !ok {
      return;
    }
    ok := PopItem(w, ref);
    WithinKeepsRest(was, mid, w.buf[..], ref, ref + 4, w.end);
    SameRest(w.buf[..], mid, ref + 4, w.ptr);
  }

  lemma WithinWider(a: seq<byte>, b: seq<byte>, from: nat, from': nat, to: nat)
    requires Within(a, b, from, to) && from' <= from
    ensures Within(a, b, from', to)
  {
    assert a[..from'] == a[..from][..from'] == b[..from][..from'] == b[..from'];
  }

  lemma WithinKeepsRest(a: seq<byte>, b: seq<byte>, c: seq<byte>, from: nat, mid: nat, to: nat)
    requires Within(a, b, from, to) && Within(b, c, from, mid) && mid <= to
    ensures Within(a, c, from, to) && c[mid..] == b[mid..]
  {
    assert c[to..] == c[mid..][to - mid..] == b[mid..][to - mid..] == b[to..];
  }

  lemma SameRest(a: seq<byte>, b: seq<byte>, from: nat, to: nat)
    requires from <= to <= |a| == |b| && a[from..] == b[from..]
    ensures a[from..to] == b[from..to]
  {
    assert forall i :: from <= i < to ==> a[i] == a[from..][i - from] && b[i] == b[from..][i - from];
  }

  // ----- Dispatching -----

  /** A message on its way to the handlers, with the time tag of the bundle that it is in. */
  datatype Event = Event(timetag: word64, msg: seq<byte>)

  /**
   * _handle_osc_packet on the bytes of one packet. None stands for inputs on which the
   * code leaves its packet or has a negative size; those are not part of this model.
   */
  function Visit(timetag: word64, bs: seq<byte>): Option<seq<Event>>
    decreases |bs|, 1, 0
  {
    if bs <= BUNDLE && |bs| < 8 then None
    else if |bs| >= 8 && bs[..8] == BUNDLE then
      if |bs| < 16 then Some([])
      else VisitItems(FromBe64(bs[8..16]), bs, 16)
    else if bs[0] == SLASH then Some([Event(timetag, bs)])
    else Some([])
  }

  /** The items from index ptr on: each one is a packet of the size that comes before it. */
  function VisitItems(timetag: word64, bs: seq<byte>, ptr: nat): Option<seq<Event>>
    requires 16 <= ptr <= |bs|
    decreases |bs|, 0, |bs| - ptr
  {
    if ptr + 4 > |bs| then Some([])
    else
      var size := Signed32(FromBe32(bs[ptr..ptr + 4]));
      if size < 0 then None
      else if ptr + 4 + size > |bs| then Some([])
      else
        match Visit(timetag, bs[ptr + 4..ptr + 4 + size])
        case None => None
        case Some(first) =>
          match VisitItems(timetag, bs, ptr + 4 + size)
          case None => None
          case Some(rest) => Some(first + rest)
  }

  /** _handle_osc_packet and _handle_osc_bundle: the loop over the items calls the packet handler again. */
  method HandlePacket(timetag: word64, bs: seq<byte>) returns (events: seq<Event>)
    requires Visit(timetag, bs).Some?
    ensures Visit(timetag, bs) == Some(events)
    decreases |bs|, 1
  {
    if |bs| >= 8 && bs[..8] == BUNDLE {
      events := HandleBundle(bs);
    } else if bs[0] == SLASH {
      events := [Event(timetag, bs)];
    } else {
      events := [];
    }
  }

  method HandleBundle(bs: seq<byte>) returns (events: seq<Event>)
    requires |bs| >= 8 && bs[..8] == BUNDLE && (|bs| >= 16 ==> VisitItems(FromBe64(bs[8..16]), bs, 16).Some?)
    ensures |bs| < 16 ==> events == []
    ensures |bs| >= 16 ==> VisitItems(FromBe64(bs[8..16]), bs, 16) == Some(events)
    decreases |bs|, 0
  {
    hide Visit, VisitItems, FromBe32, FromBe64, After;
    events := [];
    if |bs| < 16 {
      return;
    }
    var tt := FromBe64(bs[8..16]);
    var ptr := 16;
    NothingBefore(VisitItems(tt, bs, 16));
    while ptr + 4 <= |bs|
      invariant 16 <= ptr <= |bs| && VisitItems(tt, bs, ptr).Some?
      invariant VisitItems(tt, bs, 16) == After(events, VisitItems(tt, bs, ptr))
      decreases |bs| - ptr
    {
      VisitItemsStep(tt, bs, ptr, events);
      var size := Signed32(FromBe32(bs[ptr..ptr + 4]));
      if ptr + 4 + size > |bs| {
        break;
      }
      var first := HandlePacket(tt, bs[ptr + 4..ptr + 4 + size]);
      events := events + first;
      ptr := ptr + 4 + size;
    }
    VisitItemsStep(tt, bs, ptr, events);
  }

  /** The events of a packet, given those before some point of it and those after. */
  function After(before: seq<Event>, rest: Option<seq<Event>>): Option<seq<Event>> {
    if rest.None? then None else Some(before + rest.value)
  }

  lemma NothingBefore(rest: Option<seq<Event>>)
    ensures After([], rest) == rest
  {
    assert rest.Some? ==> [] + rest.value == rest.value;
  }

  /** One round of the loop over the items. */
  lemma VisitItemsStep(timetag: word64, bs: seq<byte>, ptr: nat, before: seq<Event>)
    requires 16 <= ptr <= |bs| && VisitItems(timetag, bs, ptr).Some?
    ensures ptr + 4 > |bs| ==> After(before, VisitItems(timetag, bs, ptr)) == Some(before)
    ensures ptr + 4 <= |bs| ==>
      var size := Signed32(FromBe32(bs[ptr..ptr + 4]));
      && size >= 0
      && if ptr + 4 + size > |bs| then After(before, VisitItems(timetag, bs, ptr)) == Some(before)
      else
        var first, rest := Visit(timetag, bs[ptr + 4..ptr + 4 + size]), VisitItems(timetag, bs, ptr + 4 + size);
        && first.Some? && rest.Some?
        && After(before, VisitItems(timetag, bs, ptr)) == After(before + first.value, rest)
  {
    hide Visit, FromBe32;
    assert before + [] == before;
    if ptr + 4 <= |bs| {
      var size := Signed32(FromBe32(bs[ptr..ptr + 4]));
      if ptr + 4 + size <= |bs| {
        var first, rest := Visit(timetag, bs[ptr + 4..ptr + 4 + size]), VisitItems(timetag, bs, ptr + 4 + size);
        assert before + (first.value + rest.value) == (before + first.value) + rest.value;
      }
    }
  }

  /** The messages of a tree in order, each with the time tag of its innermost bundle. */
  datatype Leaf = Leaf(timetag: word64, path: seq<byte>, args: seq<Arg>)

  function Leaves(timetag: word64, p: Packet): seq<Leaf>
    decreases p, 1
  {
    match p
    case Msg(path, args) => [Leaf(timetag, path, args)]
    case Bundle(tt, items) => ItemLeaves(tt, items)
  }

  function ItemLeaves(timetag: word64, items: seq<Packet>): seq<Leaf>
    decreases items, 0
  {
    if items == [] then [] else Leaves(timetag, items[0]) + ItemLeaves(timetag, items[1..])
  }

  /** Leaves are in the order of the tree; a time tag counts for what is in its bundle and in no inner one. */
  lemma {:induction false} LeavesInOrder(timetag: word64, a: seq<Packet>, b: seq<Packet>)
    ensures ItemLeaves(timetag, a + b) == ItemLeaves(timetag, a) + ItemLeaves(timetag, b)
    ensures forall tt: word64 :: Leaves(timetag, Bundle(tt, a)) == ItemLeaves(tt, a)
    ensures forall path, args {:trigger Msg(path, args)} ::
              Leaves(timetag, Msg(path, args)) == [Leaf(timetag, path, args)]
    ensures forall p: Packet :: ItemLeaves(timetag, [p]) == Leaves(timetag, p)
    decreases |a|
  {
    forall p: Packet
      ensures ItemLeaves(timetag, [p]) == Leaves(timetag, p)
    {
      assert [p][1..] == [];
    }
    if a == [] {
      assert a + b == b;
    } else {
      assert (a + b)[1..] == a[1..] + b;
      LeavesInOrder(timetag, a[1..], b);
    }
  }

  /** Paths start with a slash, so that the packet handler takes them for messages. */
  predicate Rooted(p: Packet)
    decreases p, 1
  {
    match p
    case Msg(path, _) => path != [] && path[0] == SLASH
    case Bundle(_, items) => AllRooted(items)
  }

  predicate AllRooted(items: seq<Packet>)
    decreases items, 0
  {
    items == [] || (Rooted(items[0]) && AllRooted(items[1..]))
  }

  ghost predicate Carries(event: Event, leaf: Leaf) {
    event.timetag == leaf.timetag && IsMessage(event.msg, leaf.path, leaf.args)
  }

  ghost predicate AllCarry(events: seq<Event>, leaves: seq<Leaf>) {
    |events| == |leaves| && forall i :: 0 <= i < |events| ==> Carries(events[i], leaves[i])
  }

  lemma AllCarryConcat(e1: seq<Event>, l1: seq<Leaf>, e2: seq<Event>, l2: seq<Leaf>)
    requires AllCarry(e1, l1) && AllCarry(e2, l2)
    ensures AllCarry(e1 + e2, l1 + l2)
  {
    hide Carries;
  }

  /** Dispatching an encoded tree of any depth visits exactly its messages, in order, with their time tags. */
  lemma {:induction false} BundleRoundTrip(timetag: word64, bs: seq<byte>, p: Packet)
    requires IsPacket(bs, p) && Rooted(p)
    ensures Visit(timetag, bs).Some? && AllCarry(Visit(timetag, bs).value, Leaves(timetag, p))
    decreases p, 1
  {
    hide IsMessage, AllCarry, VisitItems;
    match p {
      case Msg(path, args) =>
        MessageIsVisited(timetag, bs, path, args);
      case Bundle(tt, items) =>
        Be64RoundTrip(tt);
        assert !(bs <= BUNDLE && |bs| < 8);
        ItemsRoundTrip(tt, bs, 16, items);
    }
  }

  lemma MessageIsVisited(timetag: word64, bs: seq<byte>, path: seq<byte>, args: seq<Arg>)
    requires IsMessage(bs, path, args) && path != [] && path[0] == SLASH
    ensures Visit(timetag, bs) == Some([Event(timetag, bs)])
    ensures AllCarry([Event(timetag, bs)], [Leaf(timetag, path, args)])
  {
    MessagesHaveTheirSize(bs, path, args);
    assert bs[0] == bs[..TextSize(path)][0] == TextBytes(path)[..|path|][0] == SLASH;
    hide IsMessage;
    assert bs[..8][0] == SLASH;
  }

  lemma {:induction false} ItemsRoundTrip(timetag: word64, bs: seq<byte>, ptr: nat, items: seq<Packet>)
    requires 16 <= ptr <= |bs| && IsItems(bs[ptr..], items) && AllRooted(items)
    ensures VisitItems(timetag, bs, ptr).Some?
    ensures AllCarry(VisitItems(timetag, bs, ptr).value, ItemLeaves(timetag, items))
    decreases items, 0
  {
    hide IsPacket, IsItems, Visit, Leaves, AllCarry, PacketSize, FromBe32;
    if items == [] {
      NoItems(bs[ptr..]);
      NothingCarries();
    } else {
      var n := PacketSize(items[0]);
      FirstItem(bs, ptr, items);
      BundleRoundTrip(timetag, bs[ptr + 4..ptr + 4 + n], items[0]);
      ItemsRoundTrip(timetag, bs, ptr + 4 + n, items[1..]);
      AllCarryConcat(Visit(timetag, bs[ptr + 4..ptr + 4 + n]).value, Leaves(timetag, items[0]),
                     VisitItems(timetag, bs, ptr + 4 + n).value, ItemLeaves(timetag, items[1..]));
    }
  }

  lemma NoItems(bs: seq<byte>)
    requires IsItems(bs, [])
    ensures bs == []
  {}

  lemma FirstItem(bs: seq<byte>, ptr: nat, items: seq<Packet>)
    requires ptr <= |bs| && items != [] && IsItems(bs[ptr..], items)
    ensures var n := PacketSize(items[0]);
      && ptr + 4 + n <= |bs|
      && Signed32(FromBe32(bs[ptr..ptr + 4])) == n
      && IsPacket(bs[ptr + 4..ptr + 4 + n], items[0])
      && IsItems(bs[ptr + 4 + n..], items[1..])
  {
    hide IsPacket, PacketSize, Be32, FromBe32;
    var n := PacketSize(items[0]);
    assert bs[ptr..] == bs[ptr..|bs|] && bs[ptr + 4 + n..] == bs[ptr + 4 + n..|bs|];
    SliceOfSlice(bs, ptr, |bs|, 0, 4);
    SliceOfSlice(bs, ptr, |bs|, 4, 4 + n);
    SliceOfSlice(bs, ptr, |bs|, 4 + n, |bs| - ptr);
    Be32RoundTrip(n);
  }

  lemma NothingCarries()
    ensures AllCarry([], [])
  {}
}
