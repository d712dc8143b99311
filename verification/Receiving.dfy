// osc.lv2/osc.lv2/stream.h: the SLIP branch of _lv2_osc_stream_run_tcp, with the bytes of
// each recv as an input, and monobusd's ring behind its driver.

module Receiving {
  import opened Bytes
  import opened Slip
  import opened SlipStream
  import opened SlipSession
  import opened RingLayout
  import RingProtocol
  import Varchunk
  import Daemon

  /** What the packets take in the ring, headers and padding included. */
  function Elements(ps: seq<seq<byte>>): nat {
    if ps == [] then 0 else Elements(ps[..|ps| - 1]) + HEADER + Pad(|ps[|ps| - 1]|)
  }

  lemma {:induction false} ElementsPrefix(ps: seq<seq<byte>>, k: nat)
    requires k <= |ps|
    ensures Elements(ps[..k]) <= Elements(ps)
  {
    if k == |ps| {
      assert ps[..k] == ps;
    } else {
      ElementsPrefix(ps[..|ps| - 1], k);
      assert ps[..|ps| - 1][..k] == ps[..k];
    }
  }

  lemma OneMoreElement(ps: seq<seq<byte>>, p: seq<byte>)
    ensures Elements(ps + [p]) == Elements(ps) + HEADER + Pad(|p|)
  {
    hide Pad;
    assert (ps + [p])[..|ps|] == ps;
  }

  /** The first n requests are granted, and no others. */
  function UpTo(n: nat): Grants {
    i => i < n
  }

  // ----- How far the loop is -----

  /** Whatever comes later, these packets are delivered first, and the loop goes on with these bytes. */
  ghost predicate Progress(s: seq<byte>, delivered: seq<seq<byte>>, now: seq<byte>) {
    forall grants: Grants :: Granted(grants, |delivered|) ==>
      Dispatch(s, grants, 0) == After(delivered, Dispatch(now, grants, |delivered|))
  }

  lemma ProgressStarts(s: seq<byte>)
    ensures Progress(s, [], s)
  {
    hide Dispatch;
    forall grants: Grants
      ensures Dispatch(s, grants, 0) == After([], Dispatch(s, grants, 0))
    {
      assert [] + Dispatch(s, grants, 0).delivered == Dispatch(s, grants, 0).delivered;
    }
  }

  lemma ProgressSkips(s: seq<byte>, delivered: seq<seq<byte>>, now: seq<byte>)
    requires now != [] && Progress(s, delivered, now) && Decode(now).parsed > 0 && Decode(now).size == 0
    ensures Progress(s, delivered, now[Decode(now).parsed..])
  {
    hide Dispatch, Decode, Rewritten, Granted;
    forall grants: Grants | Granted(grants, |delivered|)
      ensures Dispatch(s, grants, 0) == After(delivered, Dispatch(now[Decode(now).parsed..], grants, |delivered|))
    {
      DispatchStep(now, grants, |delivered|);
    }
  }

  lemma ProgressDelivers(s: seq<byte>, delivered: seq<seq<byte>>, now: seq<byte>)
    requires now != [] && Progress(s, delivered, now) && Decode(now).size > 0
    ensures Progress(s, delivered + [Decode(now).out], now[Decode(now).parsed..])
  {
    hide Dispatch, Decode, Rewritten;
    var d, k := Decode(now), |delivered|;
    forall grants: Grants | Granted(grants, k + 1)
      ensures Dispatch(s, grants, 0) == After(delivered + [d.out], Dispatch(now[d.parsed..], grants, k + 1))
    {
      assert Granted(grants, k);
      DispatchStep(now, grants, k);
      var more := Dispatch(now[d.parsed..], grants, k + 1).delivered;
      assert delivered + ([d.out] + more) == delivered + [d.out] + more;
    }
  }

  /** Nothing more to be found. */
  lemma ProgressStops(s: seq<byte>, delivered: seq<seq<byte>>, now: seq<byte>)
    requires Progress(s, delivered, now) && (now == [] || Decode(now).parsed == 0)
    ensures Dispatch(s, Always, 0) == Dispatched(delivered, Keeps(now))
  {
    hide Dispatch, Decode, Rewritten;
    assert delivered + [] == delivered;
    if now == [] {
      DispatchNothing(Always, |delivered|);
    } else {
      DispatchStep(now, Always, |delivered|);
    }
  }

  /** No room for the next packet. */
  lemma ProgressRefused(s: seq<byte>, delivered: seq<seq<byte>>, now: seq<byte>)
    requires now != [] && Progress(s, delivered, now) && Decode(now).size > 0
    ensures Dispatch(s, UpTo(|delivered|), 0) == Dispatched(delivered, Rewritten(now))
    ensures |delivered| < |Deliver(s).delivered|
    ensures Deliver(s).delivered[..|delivered| + 1] == delivered + [Decode(now).out]
  {
    hide Dispatch, Decode, Rewritten;
    assert delivered + [] == delivered;
    DispatchStep(now, UpTo(|delivered|), |delivered|);
    DispatchStep(now, Always, |delivered|);
  }

  // ----- The receiver -----

  /** LV2_OSC_Stream, as far as receiving goes. */
  class Receiver {
    const rx: array<byte>
    var rxOff: nat

    ghost predicate Valid()
      reads this
    {
      rxOff <= rx.Length && rx.Length + 7 < 0x1_0000_0000
    }

    /** The bytes kept from earlier calls. */
    ghost function Kept(): seq<byte>
      requires Valid()
      reads this, rx
    {
      rx[..rxOff]
    }

    constructor (capacity: nat)
      requires capacity + 7 < 0x1_0000_0000
      ensures Valid() && Kept() == [] && rx.Length == capacity && fresh(rx)
    {
      rx := new byte[capacity];
      rxOff := 0;
    }

    /**
     * One call: recv puts the input behind what was kept, then packets are passed on in
     * order. The grants are the answers of the ring: all are positive, or those up to the
     * one packet for which the ring has no room. A burst within the budget is never refused.
     * Nothing is dispatched unless something was received.
     */
    method Receive(input: seq<byte>, ring: Varchunk.Varchunk, ghost budget: nat)
      returns (delivered: seq<seq<byte>>, ghost grants: Grants)
      requires Valid() && 0 < |input| <= rx.Length - rxOff
      requires ring.Valid() && (ring.producer.Idle? || ring.producer.Reserving?) && ring.buf != rx
      modifies this, rx, ring, ring.buf
      ensures Valid()
      ensures Dispatched(delivered, Kept()) == Dispatch(old(Kept()) + input, grants, 0)
      ensures ring.Valid() && (ring.producer.Idle? || ring.producer.Reserving?) && ring.consumer == old(ring.consumer)
      ensures ring.Contents() == old(ring.Contents()) + delivered
      ensures old(ring.Sys().ring.Shape()) && ring.Sys().ring.Shape()
      ensures grants == Always ||
        (grants == UpTo(|delivered|) && RefusedFor(old(Kept()) + input, delivered, ring.Sys().ring))
      ensures old(Roomy(ring.Sys().ring, budget)) && Elements(Deliver(old(Kept()) + input).delivered) + HEADER <= budget
              ==> grants == Always
    {
      hide Dispatch, Roomy, Elements, RefusedFor, RingProtocol.Inv, Varchunk.Varchunk.Valid,
           Varchunk.Varchunk.Contents, Ring.Shape;
      forall i | 0 <= i < |input| {
        rx[rxOff + i] := input[i];
      }
      assert rx[..rxOff + |input|] == old(Kept()) + input;
      var ptr, recvd;
      delivered, ptr, recvd, grants := Split(rxOff + |input|, ring, budget);
      ghost var rest := rx[ptr..ptr + recvd];
      forall i | 0 <= i < recvd {
        rx[i] := rx[ptr + i];
      }
      rxOff := recvd;
      assert rx[..rxOff] == rest;
    }

    /** The loop over the first len bytes: decode in place, request, pass on, advance. */
    method Split(len: nat, ring: Varchunk.Varchunk, ghost budget: nat)
      returns (delivered: seq<seq<byte>>, ptr: nat, recvd: nat, ghost grants: Grants)
      requires len <= rx.Length && rx.Length + 7 < 0x1_0000_0000
      requires ring.Valid() && (ring.producer.Idle? || ring.producer.Reserving?) && ring.buf != rx
      modifies rx, ring, ring.buf
      ensures ptr + recvd == len
      ensures Dispatched(delivered, rx[ptr..ptr + recvd]) == Dispatch(old(rx[..len]), grants, 0)
      ensures ring.Valid() && (ring.producer.Idle? || ring.producer.Reserving?) && ring.consumer == old(ring.consumer)
      ensures ring.Contents() == old(ring.Contents()) + delivered
      ensures old(ring.Sys().ring.Shape()) && ring.Sys().ring.Shape()
      ensures grants == Always ||
        (grants == UpTo(|delivered|) && RefusedFor(old(rx[..len]), delivered, ring.Sys().ring))
      ensures old(Roomy(ring.Sys().ring, budget)) && Elements(Deliver(old(rx[..len])).delivered) + HEADER <= budget
              ==> grants == Always
    {
      hide Dispatch, Decode, Rewritten, Progress, Roomy, Elements, Pad, RingProtocol.Inv, Varchunk.Varchunk.Valid,
           Varchunk.Varchunk.Contents, Ring.Shape,
           Daemon.Serves, Deliver, RefusedFor;
      RingShape(ring);
      ptr, recvd, delivered, grants := 0, len, [], Always;
      ghost var s := rx[..len];
      ProgressStarts(s);
      NoElements();
      ghost var room := Roomy(ring.Sys().ring, budget);
      while recvd > 0
        invariant ptr + recvd == len && Progress(s, delivered, rx[ptr..ptr + recvd])
        invariant ring.Valid() && (ring.producer.Idle? || ring.producer.Reserving?) &&
          ring.consumer == old(ring.consumer)
        invariant ring.Contents() == old(ring.Contents()) + delivered && ring.Sys().ring.Shape()
        invariant room && Elements(delivered) + HEADER <= budget ==>
          Roomy(ring.Sys().ring, budget - Elements(delivered))
        decreases recvd
      {
        ghost var now := rx[ptr..ptr + recvd];
        OneMoreElement(delivered, Decode(now).out);
        var parsed, packet, refused := PassFirst(ptr, recvd, ring, Left(budget, Elements(delivered)));
        if refused {
          ProgressRefused(s, delivered, now);
          ElementsPrefix(Deliver(s).delivered, |delivered| + 1);
          Delivers(s, delivered, Decode(now).out, ring.Sys().ring);
          grants := UpTo(|delivered|);
          return;
        }
        if packet != None {
          ProgressDelivers(s, delivered, now);
          delivered := delivered + [packet.value];
        } else if parsed > 0 {
          ProgressSkips(s, delivered, now);
        }
        if parsed == 0 {
          ProgressStops(s, delivered, now);
          return;
        }
        ptr := ptr + parsed;
        recvd := recvd - parsed;
      }
      assert rx[ptr..ptr + recvd] == [];
      ProgressStops(s, delivered, []);
    }

    /** Decode in place; no packet is the empty one. */
    method DecodeFirst(ptr: nat, recvd: nat) returns (parsed: nat, packet: seq<byte>)
      requires ptr + recvd <= rx.Length && recvd > 0
      modifies rx
      ensures var now := old(rx[ptr..ptr + recvd]);
        var d := Decode(now);
        && parsed == d.parsed && packet == (if d.size > 0 then d.out else []) && |packet| == d.size
        && rx[ptr..ptr + recvd] == Rewritten(now)
        && (parsed > 0 ==> rx[ptr + parsed..ptr + recvd] == now[parsed..])
    {
      hide Decode, Rewritten;
      ghost var now := rx[ptr..ptr + recvd];
      var size;
      parsed, size := DecodeInline(rx, ptr, recvd);
      assert rx[ptr..ptr + recvd] == Rewritten(now);
      KeepsFront(now);
      assert rx[ptr + parsed..ptr + recvd] == Rewritten(now)[parsed..];
      packet := rx[ptr..ptr + size];
      assert packet == Rewritten(now)[..size];
    }

    /** One round: decode the first packet, request room for it, and pass it on. */
    method PassFirst(ptr: nat, recvd: nat, ring: Varchunk.Varchunk, ghost budget: nat)
      returns (parsed: nat, packet: Option<seq<byte>>, refused: bool)
      requires ptr + recvd <= rx.Length && rx.Length + 7 < 0x1_0000_0000 && recvd > 0
      requires ring.Valid() && (ring.producer.Idle? || ring.producer.Reserving?) && ring.buf != rx
      modifies rx, ring, ring.buf
      ensures ring.Valid() && (ring.producer.Idle? || ring.producer.Reserving?) && ring.consumer == old(ring.consumer)
      ensures old(ring.Sys().ring.Shape()) && ring.Sys().ring.Shape()
      ensures var now := old(rx[ptr..ptr + recvd]);
        var d := Decode(now);
        && parsed == (if refused then 0 else d.parsed)
        && rx[ptr..ptr + recvd] == Rewritten(now) && (parsed > 0 ==> rx[ptr + parsed..ptr + recvd] == now[parsed..])
        && packet == (if d.size > 0 && !refused then Some(d.out) else None)
        && (refused ==> d.size > 0 && !Daemon.Serves(ring.Sys().ring, |d.out|))
        && ring.Contents() == old(ring.Contents()) + (if packet.Some? then [d.out] else [])
        && (old(Roomy(ring.Sys().ring, budget)) && (d.size > 0 ==> 2 * HEADER + Pad(|d.out|) <= budget) ==>
              && !refused
              && Roomy(ring.Sys().ring, if d.size > 0 then budget - HEADER - Pad(|d.out|) else budget))
    {
      hide Decode, Rewritten, Roomy, Pad, RingProtocol.Inv, Varchunk.Varchunk.Valid, Varchunk.Varchunk.Contents,
           Ring.Shape, Daemon.Serves;
      RingShape(ring);
      var buf;
      parsed, buf := DecodeFirst(ptr, recvd);
      packet, refused := None, false;
      if buf != [] {
        var granted := Daemon.PassOn(ring, buf, budget);
        if granted {
          packet := Some(buf);
        } else {
          parsed, refused := 0, true;
        }
      }
    }
  }

  lemma Delivers(s: seq<byte>, delivered: seq<seq<byte>>, packet: seq<byte>, ring: Ring)
    requires |delivered| < |Deliver(s).delivered| && Deliver(s).delivered[..|delivered| + 1] == delivered + [packet]
    requires ring.Shape() && !Daemon.Serves(ring, |packet|)
    ensures RefusedFor(s, delivered, ring)
  {
    hide Deliver, Daemon.Serves, Ring.Shape;
    var all := Deliver(s).delivered;
    assert all[|delivered|] == all[..|delivered| + 1][|delivered|] == packet;
    assert delivered == all[..|delivered| + 1][..|delivered|] == all[..|delivered|];
  }

  /**
   * The receiver called with one piece after the other, as long as there is room for the
   * next one in its buffer.
   */
  method ReceivePieces(receiver: Receiver, ring: Varchunk.Varchunk, inputs: seq<seq<byte>>)
    returns (delivered: seq<seq<byte>>, taken: nat, ghost grants: seq<Grants>)
    requires receiver.Valid() && ring.buf != receiver.rx && forall i :: 0 <= i < |inputs| ==> inputs[i] != []
    requires ring.Valid() && (ring.producer.Idle? || ring.producer.Reserving?)
    modifies receiver, receiver.rx, ring, ring.buf
    ensures receiver.Valid() && taken <= |inputs| && |grants| == taken
    ensures taken < |inputs| ==> receiver.rxOff + |inputs[taken]| > receiver.rx.Length
    ensures Dispatched(delivered, receiver.Kept()) == ReceiveAll(old(receiver.Kept()), inputs[..taken], grants)
    ensures ring.Valid() && (ring.producer.Idle? || ring.producer.Reserving?) && ring.consumer == old(ring.consumer)
    ensures ring.Contents() == old(ring.Contents()) + delivered
    decreases |inputs|
  {
    hide Dispatch, Roomy, RefusedFor, RingProtocol.Inv, Varchunk.Varchunk.Valid, Varchunk.Varchunk.Contents, Ring.Shape;
    delivered, taken, grants := [], 0, [];
    if inputs != [] && |inputs[0]| <= receiver.rx.Length - receiver.rxOff {
      var first, answers := receiver.Receive(inputs[0], ring, 0);
      var more, rest, others := ReceivePieces(receiver, ring, inputs[1..]);
      delivered, taken, grants := first + more, 1 + rest, [answers] + others;
      assert inputs[..taken][1..] == inputs[1..][..rest];
    }
  }

  lemma RingShape(ring: Varchunk.Varchunk)
    requires ring.Valid()
    ensures ring.Sys().ring.Shape()
  {
    Varchunk.ValidIndexes(ring.Sys());
  }

  function Left(budget: nat, used: nat): nat {
    if used <= budget then budget - used else 0
  }

  lemma NoElements()
    ensures Elements([]) == 0
  {}

  lemma KeepsFront(now: seq<byte>)
    requires now != []
    ensures var d := Decode(now);
      && Rewritten(now)[..|d.out|] == d.out && (d.parsed > 0 ==> Rewritten(now)[d.parsed..] == now[d.parsed..])
  {
    DispatchStep(now, Always, 0);
  }

  /** The packet behind the delivered ones finds no room in the ring. */
  ghost predicate RefusedFor(s: seq<byte>, delivered: seq<seq<byte>>, ring: Ring)
    requires ring.Shape()
  {
    var all := Deliver(s).delivered;
    delivered < all && !Daemon.Serves(ring, |all[|delivered|]|)
  }
}
