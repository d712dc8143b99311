// monobusd.c: how the stream's driver puts packets into the ring.

module Daemon {
  import opened Bytes
  import opened RingLayout
  import opened RingProtocol
  import opened Varchunk

  /** A request for n bytes would succeed now. */
  ghost predicate Serves(r: Ring, n: nat)
    requires r.Shape()
  {
    Reserve(r, r.tail, n).1.Some?
  }

  /**
   * The stream's use of the ring for one packet: request its size, copy it, advance by its
   * size. It is refused exactly if the request is. The budget is that of a burst of packets
   * (RoomyServes).
   */
  method PassOn(ring: Varchunk, packet: seq<byte>, ghost budget: nat) returns (granted: bool)
    requires ring.Valid() && (ring.producer.Idle? || ring.producer.Reserving?)
    requires |packet| + 7 < 0x1_0000_0000
    modifies ring, ring.buf
    ensures ring.Valid() && ring.producer.Idle? && ring.consumer == old(ring.consumer)
    ensures ring.Contents() == if granted then old(ring.Contents()) + [packet] else old(ring.Contents())
    ensures old(ring.Sys().ring.Shape()) && ring.Sys().ring.Shape()
    ensures granted == old(Serves(ring.Sys().ring, |packet|))
    ensures !granted ==> !Serves(ring.Sys().ring, |packet|)
    ensures old(Roomy(ring.Sys().ring, budget)) && 2 * HEADER + Pad(|packet|) <= budget ==>
              granted && Roomy(ring.Sys().ring, budget - HEADER - Pad(|packet|))
  {
    hide Inv, IsPow2, Run, After, Pad, WriteRequested, Committed, Roomy, Serves, StoreHead, MarkHeaders, Ring.Shape,
         Ring.Reserved, Reserve;
    ghost var s := ring.Sys();
    ValidIndexes(s);
    BurstAnswers(s, |packet|, budget);
    var ptr, maximum := ring.WriteRequestMax(|packet|);
    if ptr == None {
      return false;
    }
    RequestIsEnough(ring.Sys(), |packet|);
    ghost var reserved := ring.Sys();
    ring.Fill(ptr.value, packet);
    ghost var filled := ring.Sys();
    assert Reservation(filled.ring, |packet|) == packet;
    ring.WriteAdvance(|packet|);
    ValidIndexes(ring.Sys());
    BurstCommitted(s, reserved, filled, |packet|, budget);
    return true;
  }

  /** What a request answers, and that it leaves the room as it is. */
  lemma BurstAnswers(s: System, n: nat, budget: nat)
    requires s.ring.Shape()
    ensures var s' := WriteRequested(s, n);
      && s'.producer == (if Serves(s.ring, n) then Reserving(n) else Idle)
      && s'.ring.Shape() && s'.consumer == s.consumer
      && (!Serves(s.ring, n) ==> !Serves(s'.ring, n))
    ensures Roomy(s.ring, budget) && 2 * HEADER + Pad(n) <= budget ==> Serves(s.ring, n)
  {
    if Roomy(s.ring, budget) && 2 * HEADER + Pad(n) <= budget {
      RoomyServes(s.ring, budget, n);
    }
    hide Pad;
  }

  lemma BurstCommitted(s: System, reserved: System, filled: System, n: nat, budget: nat)
    requires s.ring.Shape() && reserved == WriteRequested(s, n) && Serves(s.ring, n)
    requires |filled.ring.mem| == |reserved.ring.mem| &&
      filled == reserved.(ring := reserved.ring.(mem := filled.ring.mem))
    requires Committable(filled, n) && Committed(filled, n).ring.Shape()
    ensures Committed(filled, n).consumer == s.consumer
    ensures Roomy(s.ring, budget) && 2 * HEADER + Pad(n) <= budget ==>
              Roomy(Committed(filled, n).ring, budget - HEADER - Pad(n))
  {
    if Roomy(s.ring, budget) && 2 * HEADER + Pad(n) <= budget {
      RoomyServes(s.ring, budget, n);
      HeadersKeepIndexes(filled.ring, n);
    }
    hide Pad, Reserve, Put, MarkHeaders;
  }

  lemma HeadersKeepIndexes(r: Ring, n: nat)
    requires n < 0x1_0000_0000 && HEADER <= |r.mem| && r.head + HEADER <= |r.mem|
    requires r.gapd > 0 ==> HEADER <= r.gapd <= 0x1_0000_0000
    ensures var r' := MarkHeaders(r, n); r' == r.(mem := r'.mem) && |r'.mem| == |r.mem|
  {
    hide Put, Header;
  }

  lemma RequestIsEnough(s: System, minimum: nat)
    requires Inv(s) && s.producer == Reserving(minimum) && minimum + 7 < 0x1_0000_0000
    ensures minimum <= s.ring.rsvd && HEADER + Pad(minimum) <= s.ring.rsvd
    ensures s.ring.Start() + HEADER + minimum <= s.ring.Start() + s.ring.rsvd <= |s.ring.mem|
  {
    PadRoundsUp(minimum);
  }
}
