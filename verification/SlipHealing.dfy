// osc.lv2/osc.lv2/stream.h: a connection that recovers from a bad cut.
//
// That every call leaves its part of a frame as it was is enough for all packets to
// arrive (IntactSession), and necessary for packets that start with neither END nor ESC
// (SessionDelivers). It is not necessary for all packets: decoding a damaged part again
// may happen to repair it.

module SlipHealing {
  import opened Bytes
  import opened Slip
  import opened SlipStream
  import opened SlipSession

  const X: byte := 0x61

  const PACKET: seq<byte> := [END, ESC, X, ESC, END_REPLACE, ESC, ESC_REPLACE]

  /** The pieces in which its frame arrives. */
  const P1: seq<byte> := [END, ESC, END_REPLACE, ESC, ESC_REPLACE, X]
  const P2: seq<byte> := [ESC, ESC_REPLACE, END_REPLACE, ESC, ESC_REPLACE]
  const P3: seq<byte> := [ESC_REPLACE]
  const P4: seq<byte> := [END]

  /** What the calls keep. */
  const K1: seq<byte> := [END, ESC, X, ESC, ESC_REPLACE, X]
  const K2: seq<byte> := [ESC, X, ESC, END_REPLACE, ESC, X, ESC, ESC_REPLACE, END_REPLACE, ESC, ESC_REPLACE]

  lemma EscapeCons(b: byte, t: seq<byte>)
    ensures Escape([b] + t) == EscapeByte(b) + Escape(t)
  {
    assert ([b] + t)[1..] == t;
  }

  lemma ScanOne(b: byte, t: seq<byte>)
    requires !Special(b)
    ensures var r := ScanBody(t); ScanBody([b] + t) == Scan([b] + r.out, 1 + r.used, r.ended)
  {
    hide ScanBody;
    UnfoldScan([b] + t);
    assert ([b] + t)[1..] == t;
  }

  lemma ScanPair(b: byte, t: seq<byte>)
    ensures var r := ScanBody(t); ScanBody([ESC, b] + t) == Scan(Unreplace(b) + r.out, 2 + r.used, r.ended)
  {
    hide ScanBody;
    UnfoldScan([ESC, b] + t);
    assert ([ESC, b] + t)[2..] == t;
  }

  lemma FrameOfPacket()
    ensures Encode(PACKET) == P1 + P2 + P3 + P4
  {
    hide Escape;
    EscapeNothing();
    EscapeCons(ESC_REPLACE, []);
    EscapeCons(ESC, [ESC_REPLACE]);
    EscapeCons(END_REPLACE, [ESC, ESC_REPLACE]);
    EscapeCons(ESC, [END_REPLACE, ESC, ESC_REPLACE]);
    EscapeCons(X, [ESC, END_REPLACE, ESC, ESC_REPLACE]);
    EscapeCons(ESC, [X, ESC, END_REPLACE, ESC, ESC_REPLACE]);
    EscapeCons(END, [ESC, X, ESC, END_REPLACE, ESC, ESC_REPLACE]);
    assert [ESC_REPLACE] + [] == [ESC_REPLACE];
    assert [ESC] + [ESC_REPLACE] == [ESC, ESC_REPLACE];
    assert [END_REPLACE] + [ESC, ESC_REPLACE] == [END_REPLACE, ESC, ESC_REPLACE];
    assert [ESC] + [END_REPLACE, ESC, ESC_REPLACE] == [ESC, END_REPLACE, ESC, ESC_REPLACE];
    assert [X] + [ESC, END_REPLACE, ESC, ESC_REPLACE] == [X, ESC, END_REPLACE, ESC, ESC_REPLACE];
    assert [ESC] + [X, ESC, END_REPLACE, ESC, ESC_REPLACE] == [ESC, X, ESC, END_REPLACE, ESC, ESC_REPLACE];
    assert [END] + [ESC, X, ESC, END_REPLACE, ESC, ESC_REPLACE] == PACKET;
  }

  /** A call that finds no whole frame. */
  lemma NothingFound(s: seq<byte>, out: seq<byte>)
    requires s != [] && !ScanBody(Body(s)).ended && ScanBody(Body(s)).out == out
    ensures |out| <= |s| && Deliver(s) == Dispatched([], out + s[|out|..]) && Rewritten(s) == out + s[|out|..]
  {
    hide ScanBody;
    DispatchStep(s, Always, 0);
  }

  /** The first call damages its part of the frame. */
  lemma FirstDamages()
    ensures Deliver(P1) == Dispatched([], K1) && Rewritten(P1) == K1 != P1
  {
    hide ScanBody, Rewritten;
    ScanStops([]);
    ScanOne(X, []);
    ScanPair(ESC_REPLACE, [X]);
    ScanPair(END_REPLACE, [ESC, ESC_REPLACE, X]);
    assert [X] + [] == [X] && [ESC, ESC_REPLACE] + [X] == [ESC, ESC_REPLACE, X];
    assert Body(P1) == [ESC, END_REPLACE] + [ESC, ESC_REPLACE, X];
    NothingFound(P1, [END, ESC, X]);
    assert K1 == [END, ESC, X] + P1[3..];
    assert K1[2] != P1[2];
  }

  lemma SecondDamagesMore()
    ensures Deliver(K1 + P2) == Dispatched([], K2)
  {
    hide ScanBody;
    SecondScan();
    NothingFound(K1 + P2, [ESC, X, ESC, END_REPLACE, ESC]);
    assert (K1 + P2)[5..] == [X] + P2;
    assert K2 == [ESC, X, ESC, END_REPLACE, ESC] + ([X] + P2);
  }

  lemma SecondScan()
    ensures var r := ScanBody(Body(K1 + P2)); r.out == [ESC, X, ESC, END_REPLACE, ESC] && !r.ended
  {
    hide ScanBody;
    ScanStops([]);
    ScanPair(ESC_REPLACE, []);
    var t1 := [ESC, ESC_REPLACE];
    assert t1 + [] == t1;
    ScanOne(END_REPLACE, t1);
    var t2 := [END_REPLACE] + t1;
    ScanPair(ESC_REPLACE, t2);
    var t3 := [ESC, ESC_REPLACE] + t2;
    ScanOne(X, t3);
    var t4 := [X] + t3;
    ScanPair(ESC_REPLACE, t4);
    var t5 := [ESC, ESC_REPLACE] + t4;
    ScanPair(X, t5);
    assert Body(K1 + P2) == [ESC, X] + t5;
  }

  lemma ThirdRepairs()
    ensures Deliver(K2 + P3) == Dispatched([], P1 + P2 + P3)
  {
    hide ScanBody;
    ThirdScan();
    assert Body(K2 + P3) == K2 + P3;
    NothingFound(K2 + P3, [END, ESC, END_REPLACE, ESC, ESC_REPLACE]);
    assert (K2 + P3)[5..] == [X] + P2 + P3;
    assert P1 == [END, ESC, END_REPLACE, ESC, ESC_REPLACE] + [X];
    assert P1 + P2 + P3 == [END, ESC, END_REPLACE, ESC, ESC_REPLACE] + ([X] + P2 + P3);
  }

  lemma ThirdScan()
    ensures ScanBody(K2 + P3) == Scan([END, ESC, END_REPLACE, ESC, ESC_REPLACE], 12, false)
  {
    hide ScanBody;
    ScanStops([]);
    ScanOne(ESC_REPLACE, []);
    var t1 := [ESC_REPLACE];
    assert t1 + [] == t1;
    ScanPair(ESC_REPLACE, t1);
    var t2 := [ESC, ESC_REPLACE] + t1;
    ScanOne(END_REPLACE, t2);
    var t3 := [END_REPLACE] + t2;
    ScanPair(ESC_REPLACE, t3);
    var t4 := [ESC, ESC_REPLACE] + t3;
    ScanPair(X, t4);
    var t5 := [ESC, X] + t4;
    ScanPair(END_REPLACE, t5);
    var t6 := [ESC, END_REPLACE] + t5;
    ScanPair(X, t6);
    assert K2 + P3 == [ESC, X] + t6;
  }

  /** The packet arrives, although the first of its four calls did not leave its part of the frame as it was. */
  lemma SelfHealing()
    ensures Joined([P1, P2, P3, P4]) == Frames([PACKET])
    ensures ReceiveAll([], [P1, P2, P3, P4], [Always, Always, Always, Always]) == Dispatched([PACKET], [])
    ensures Keeps(P1) != P1
  {
    FrameOfPacket();
    FramesCons(PACKET, []);
    JoinedIs();
    FirstDamages();
    SecondDamagesMore();
    ThirdRepairs();
    hide Dispatch, Encode, Frames, Rewritten;
    NoFrame([]);
    DispatchFrame(PACKET, [], Always, 0);
    DispatchNothing(Always, 1);
    assert P1 + P2 + P3 + P4 + [] == P1 + P2 + P3 + P4;
    FourCalls([P1, P2, P3, P4], [Always, Always, Always, Always]);
  }

  lemma JoinedIs()
    ensures Joined([P1, P2, P3, P4]) == P1 + P2 + P3 + P4
  {
    JoinedCons(P4, []);
    JoinedCons(P3, [P4]);
    JoinedCons(P2, [P3, P4]);
    JoinedCons(P1, [P2, P3, P4]);
    assert [P4] + [] == [P4] && [P3] + [P4] == [P3, P4] && [P2] + [P3, P4] == [P2, P3, P4];
    assert [P1] + [P2, P3, P4] == [P1, P2, P3, P4];
    hide Joined;
    assert P4 + [] == P4;
    assert P1 + (P2 + (P3 + P4)) == P1 + P2 + P3 + P4;
  }

  lemma JoinedCons(p: seq<byte>, ps: seq<seq<byte>>)
    ensures Joined([p] + ps) == p + Joined(ps)
  {
    assert ([p] + ps)[1..] == ps;
  }

  lemma FourCalls(inputs: seq<seq<byte>>, grants: seq<Grants>)
    requires inputs == [P1, P2, P3, P4] && grants == [Always, Always, Always, Always]
    requires Dispatch(P1, Always, 0) == Dispatched([], K1) && Dispatch(K1 + P2, Always, 0) == Dispatched([], K2)
    requires Dispatch(K2 + P3, Always, 0) == Dispatched([], P1 + P2 + P3)
    requires Dispatch(P1 + P2 + P3 + P4, Always, 0) == Dispatched([PACKET], [])
    ensures ReceiveAll([], inputs, grants) == Dispatched([PACKET], [])
  {
    hide Dispatch;
    var i1, i2, i3 := inputs[1..], inputs[1..][1..], inputs[1..][1..][1..];
    assert i3 == [P4] && i3[1..] == [];
    var g1, g2, g3 := grants[1..], grants[1..][1..], grants[1..][1..][1..];
    assert ReceiveAll(P1 + P2 + P3, i3, g3) == Dispatched([PACKET], []);
    assert ReceiveAll(K2, i2, g2) == Dispatched([PACKET], []);
    assert ReceiveAll(K1, i1, g1) == Dispatched([PACKET], []);
    assert [] + P1 == P1;
  }
}
