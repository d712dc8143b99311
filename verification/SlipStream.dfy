// osc.lv2/osc.lv2/stream.h: splitting received bytes into packets, as a function of the bytes
// and of the answers to the requests for room.

module SlipStream {
  import opened Bytes
  import opened Slip

  /** Answers of write_req, by the number of the request: is there room for the packet? */
  type Grants = nat -> bool

  /** The packets passed on, and what stays in the buffer for the next call. */
  datatype Dispatched = Dispatched(delivered: seq<seq<byte>>, rest: seq<byte>)

  function Dispatch(s: seq<byte>, grants: Grants, k: nat): (r: Dispatched)
    ensures |r.rest| <= |s|
    decreases |s|
  {
    if s == [] then Dispatched([], [])
    else
      var d := Decode(s);
      if d.parsed == 0 || (d.size > 0 && !grants(k)) then Dispatched([], Rewritten(s))
      else if d.size == 0 then Dispatch(s[d.parsed..], grants, k)
      else
        var r := Dispatch(s[d.parsed..], grants, k + 1);
        Dispatched([d.out] + r.delivered, r.rest)
  }

  const Always: Grants := _ => true

  /** What is delivered when every request is granted. */
  function Deliver(s: seq<byte>): Dispatched {
    Dispatch(s, Always, 0)
  }

  lemma {:induction false} AlwaysGranted(s: seq<byte>, k: nat)
    ensures Dispatch(s, Always, k) == Deliver(s)
    decreases |s|
  {
    if s != [] {
      var d := Decode(s);
      if d.parsed > 0 {
        AlwaysGranted(s[d.parsed..], if d.size == 0 then k else k + 1);
        AlwaysGranted(s[d.parsed..], if d.size == 0 then 0 else 1);
      }
    }
  }

  /** A result with earlier deliveries in front. */
  function After(delivered: seq<seq<byte>>, r: Dispatched): Dispatched {
    Dispatched(delivered + r.delivered, r.rest)
  }

  lemma DispatchNothing(grants: Grants, k: nat)
    ensures Dispatch([], grants, k) == Dispatched([], [])
  {}

  /** The round of the loop that starts with the bytes s. */
  lemma DispatchStep(s: seq<byte>, grants: Grants, k: nat)
    requires s != []
    ensures var d := Decode(s);
      && |d.out| == |Rewritten(s)[..|d.out|]| && Rewritten(s)[..|d.out|] == d.out
      && (d.parsed > 0 ==> Rewritten(s)[d.parsed..] == s[d.parsed..])
      && Dispatch(s, grants, k) ==
           if d.parsed == 0 || (d.size > 0 && !grants(k)) then Dispatched([], Rewritten(s))
           else if d.size == 0 then Dispatch(s[d.parsed..], grants, k)
           else After([d.out], Dispatch(s[d.parsed..], grants, k + 1))
  {
    hide ScanBody;
  }

  // ----- Round trip -----

  lemma ScanEscapedByte(b: byte, t: seq<byte>)
    ensures var r := ScanBody(t);
      ScanBody(EscapeByte(b) + t) == Scan([b] + r.out, |EscapeByte(b)| + r.used, r.ended)
  {
    hide ScanBody;
    var s := EscapeByte(b) + t;
    UnfoldScan(s);
    assert s[FrontLength(s)..] == t;
  }

  /** The escape of m holds no END, so decoding it goes on into whatever follows. */
  lemma {:induction false} ScanEscape(m: seq<byte>, t: seq<byte>)
    ensures var r := ScanBody(t);
      ScanBody(Escape(m) + t) == Scan(m + r.out, |Escape(m)| + r.used, r.ended)
  {
    hide ScanBody, EscapeByte;
    if m == [] {
      assert Escape(m) + t == t;
    } else {
      ScanEscape(m[1..], t);
      assert Escape(m) + t == EscapeByte(m[0]) + (Escape(m[1..]) + t);
      ScanEscapedByte(m[0], Escape(m[1..]) + t);
      assert m + ScanBody(t).out == [m[0]] + (m[1..] + ScanBody(t).out);
    }
  }

  lemma ScanAtEnd(t: seq<byte>)
    ensures ScanBody([END] + t) == Scan([], 1, true)
  {}

  /** Decoding a frame gives back the packet, takes the frame exactly, and leaves what follows alone. */
  lemma DecodeEncode(m: seq<byte>, t: seq<byte>)
    requires m != []
    ensures Decode(Encode(m) + t) == Decoded(m, |m|, |Encode(m)|)
    ensures |m| <= |Encode(m)| && Rewritten(Encode(m) + t)[|Encode(m)|..] == t
  {
    hide ScanBody, Decode, Rewritten;
    var s := Encode(m) + t;
    DecodeFrame(m, t);
    EscapeLength(m);
    DispatchStep(s, Always, 0);
    hide Encode, Dispatch;
    assert s[|Encode(m)|..] == t;
  }

  lemma DecodeFrame(m: seq<byte>, t: seq<byte>)
    requires m != []
    ensures Decode(Encode(m) + t) == Decoded(m, |m|, |Encode(m)|)
  {
    hide ScanBody, Escape;
    var s := Encode(m) + t;
    assert Body(s) == Escape(m) + ([END] + t);
    ScanEscape(m, [END] + t);
    ScanAtEnd(t);
    assert m + [] == m;
  }

  function Frames(ps: seq<seq<byte>>): seq<byte> {
    if ps == [] then [] else Encode(ps[0]) + Frames(ps[1..])
  }

  ghost predicate NonEmpty(ps: seq<seq<byte>>) {
    forall i :: 0 <= i < |ps| ==> ps[i] != []
  }

  lemma DispatchFrame(m: seq<byte>, t: seq<byte>, grants: Grants, k: nat)
    requires m != []
    ensures grants(k) ==> Dispatch(Encode(m) + t, grants, k) == After([m], Dispatch(t, grants, k + 1))
    ensures !grants(k) ==> Dispatch(Encode(m) + t, grants, k) == Dispatched([], Rewritten(Encode(m) + t))
  {
    DecodeEncode(m, t);
    DispatchStep(Encode(m) + t, grants, k);
    hide Dispatch, Decode, Rewritten, Escape;
    assert (Encode(m) + t)[|Encode(m)|..] == t;
  }

  lemma NoFrame(t: seq<byte>)
    ensures Frames([]) + t == t
  {}

  lemma FirstFrame(ps: seq<seq<byte>>, t: seq<byte>)
    requires ps != []
    ensures Frames(ps) + t == Encode(ps[0]) + (Frames(ps[1..]) + t)
  {}

  /** Granted frames are delivered in order, and dispatching goes on with the bytes behind them. */
  lemma {:induction false} DispatchFrames(ps: seq<seq<byte>>, t: seq<byte>, grants: Grants, k: nat)
    requires NonEmpty(ps) && forall i :: k <= i < k + |ps| ==> grants(i)
    ensures Dispatch(Frames(ps) + t, grants, k) == After(ps, Dispatch(t, grants, k + |ps|))
  {
    hide Dispatch, Encode, Frames;
    if ps == [] {
      NoFrame(t);
    } else {
      FirstFrame(ps, t);
      DispatchFrame(ps[0], Frames(ps[1..]) + t, grants, k);
      DispatchFrames(ps[1..], t, grants, k + 1);
      var r := Dispatch(t, grants, k + |ps|);
      assert [ps[0]] + (ps[1..] + r.delivered) == ps + r.delivered;
    }
  }

  /** Frames followed by the first n bytes of another one: everything is delivered but the last, and n bytes wait. */
  lemma WholeAndPartial(ps: seq<seq<byte>>, m: seq<byte>, n: nat)
    requires NonEmpty(ps) && m != [] && n < |Encode(m)|
    ensures Deliver(Frames(ps) + Encode(m)[..n]) == Dispatched(ps, if n == 0 then [] else Rewritten(Encode(m)[..n]))
    ensures |Deliver(Frames(ps) + Encode(m)[..n]).rest| == n
  {
    var t := Encode(m)[..n];
    DispatchFrames(ps, t, Always, 0);
    DecodePartial(m, n);
    if n > 0 {
      DispatchStep(t, Always, |ps|);
    }
    hide Encode, Decode, Rewritten;
    assert ps + [] == ps;
  }

  /** A proper prefix of a frame is never taken for a packet. */
  lemma DecodePartial(m: seq<byte>, n: nat)
    requires m != [] && n < |Encode(m)|
    ensures Decode(Encode(m)[..n]).parsed == 0
    ensures n >= 1 ==> Decode(Encode(m)[..n]).out == ScanBody(Escape(m)[..n - 1]).out
  {
    hide Escape, ScanBody;
    var t := Encode(m)[..n];
    if n == 0 {
      ScanStops(t);
    } else {
      assert t[0] == END && t[1..] == Escape(m)[..n - 1];
      ScanPartial(m, n - 1);
    }
  }

  lemma {:induction false} ScanPartial(m: seq<byte>, n: nat)
    requires n <= |Escape(m)|
    ensures !ScanBody(Escape(m)[..n]).ended
    ensures ScanBody(Escape(m)[..n]).out <= m
    ensures m != [] ==> (ScanBody(Escape(m)[..n]).out == [] <==> n < |EscapeByte(m[0])|)
  {
    hide ScanBody, EscapeByte;
    if m == [] || n < |EscapeByte(m[0])| {
      ScanTooShort(m, n);
    } else {
      var front := EscapeByte(m[0]);
      ScanPartial(m[1..], n - |front|);
      assert Escape(m)[..n] == front + Escape(m[1..])[..n - |front|];
      ScanEscapedByte(m[0], Escape(m[1..])[..n - |front|]);
      assert m == [m[0]] + m[1..];
    }
  }

  lemma ScanTooShort(m: seq<byte>, n: nat)
    requires n <= |Escape(m)| && (m == [] || n < |EscapeByte(m[0])|)
    ensures ScanBody(Escape(m)[..n]) == Scan([], 0, false)
  {}

  /** write_req may refuse a packet; then nothing more is delivered in this call. */
  lemma Refused(ps: seq<seq<byte>>, m: seq<byte>, t: seq<byte>, grants: Grants)
    requires NonEmpty(ps) && m != []
    requires (forall i :: 0 <= i < |ps| ==> grants(i)) && !grants(|ps|)
    ensures |m| <= |Encode(m)|
    ensures Dispatch(Frames(ps) + (Encode(m) + t), grants, 0)
      == Dispatched(ps, m + (Encode(m) + t)[|m|..])
  {
    hide Dispatch, Encode, Frames;
    DispatchFrames(ps, Encode(m) + t, grants, 0);
    DispatchFrame(m, t, grants, |ps|);
    DecodeEncode(m, t);
    assert ps + [] == ps;
  }

  // ----- Resynchronisation -----

  /** What the decoder has finished with does not depend on the bytes behind it. */
  lemma {:induction false} ScanIgnoresRest(s: seq<byte>, t: seq<byte>)
    requires ScanBody(s).ended
    ensures ScanBody(s + t) == ScanBody(s)
    decreases |s|
  {
    if s[0] == END {
    } else {
      var n := FrontLength(s);
      assert (s + t)[n..] == s[n..] + t;
      ScanIgnoresRest(s[n..], t);
    }
  }

  lemma DecodeIgnoresRest(s: seq<byte>, t: seq<byte>)
    requires Decode(s).parsed > 0
    ensures Decode(s + t) == Decode(s)
  {
    hide ScanBody;
    if s == [] {
    } else {
      assert Body(s + t) == Body(s) + t;
      ScanIgnoresRest(Body(s), t);
    }
  }

  /** Bytes that are dispatched completely have no influence on those behind them. */
  lemma {:induction false} DispatchConcat(s: seq<byte>, t: seq<byte>)
    requires Deliver(s).rest == []
    ensures Deliver(s + t) == After(Deliver(s).delivered, Deliver(t))
    decreases |s|
  {
    hide Decode, Rewritten, Dispatch, Deliver;
    if s == [] {
      assert s + t == t;
      DeliverNothing();
      assert After([], Deliver(t)) == Deliver(t);
    } else {
      var d := Decode(s);
      DeliverStep(s);
      assert d.parsed > 0;
      DecodeIgnoresRest(s, t);
      DeliverStep(s + t);
      assert (s + t)[d.parsed..] == s[d.parsed..] + t;
      DispatchConcat(s[d.parsed..], t);
      var rest, behind := Deliver(s[d.parsed..]).delivered, Deliver(t).delivered;
      assert [d.out] + (rest + behind) == [d.out] + rest + behind;
    }
  }

  lemma DeliverNothing()
    ensures Deliver([]) == Dispatched([], [])
  {}

  lemma DeliverStep(s: seq<byte>)
    requires s != []
    ensures var d := Decode(s);
      Deliver(s) ==
        if d.parsed == 0 then Dispatched([], Rewritten(s))
        else if d.size == 0 then Deliver(s[d.parsed..])
        else After([d.out], Deliver(s[d.parsed..]))
    ensures Decode(s).parsed == 0 ==> Deliver(s).rest != []
  {
    hide Decode, Rewritten;
    DispatchStep(s, Always, 0);
    AlwaysGranted(s[Decode(s).parsed..], 1);
  }

  /**
   * Where decoding stops when junk a comes before a frame: in the junk, at the END that
   * opens the frame, or at the END that closes it.
   */
  lemma {:induction false} ScanJunk(a: seq<byte>, m: seq<byte>)
    ensures var r := ScanBody(a + ([END] + (Escape(m) + [END])));
      r.ended && (r.used <= |a| + 1 || r.used == |a| + 2 + |Escape(m)|)
    decreases |a|
  {
    hide Escape;
    var f := [END] + (Escape(m) + [END]);
    if a == [] {
      assert a + f == f;
    } else if a[0] == END {
    } else if a == [ESC] {
      ScanEscape(m, [END]);
      assert (a + f)[2..] == Escape(m) + [END];
      ScanAtEnd([]);
      assert [END] + [] == [END];
    } else {
      var n := FrontLength(a);
      assert (a + f)[n..] == a[n..] + f;
      ScanJunk(a[n..], m);
    }
  }

  /** A frame body without its opening END is consumed, and nothing is delivered for it. */
  lemma HeadlessFrame(m: seq<byte>)
    requires m != []
    ensures Deliver(Escape(m) + [END]) == Dispatched([], [])
  {
    var s := Escape(m) + [END];
    ScanEscape(m, [END]);
    ScanAtEnd([]);
    assert [END] + [] == [END];
    assert !Whole(s);
    DispatchStep(s, Always, 0);
    assert s[|s|..] == [];
    DispatchNothing(Always, 0);
  }

  /** Whatever came before it, a complete frame brings the decoder back to a frame boundary. */
  lemma {:induction false} FrameSettles(junk: seq<byte>, m: seq<byte>)
    requires m != []
    ensures Deliver(junk + Encode(m)).rest == []
    decreases |junk|
  {
    hide ScanBody, Escape, Rewritten, Deliver, Decode;
    var f := [END] + (Escape(m) + [END]);
    assert Encode(m) == f;
    var s := junk + f;
    DeliverNothing();
    if junk == [] {
      assert s == f + [];
      DecodeEncode(m, []);
      DeliverStep(s);
      assert s[|f|..] == [];
    } else {
      var parsed := Decode(s).parsed;
      JunkParsed(junk, m);
      DeliverStep(s);
      if parsed <= |junk| {
        assert s[parsed..] == junk[parsed..] + f;
        FrameSettles(junk[parsed..], m);
      } else if parsed == |junk| + 1 {
        assert s[parsed..] == Escape(m) + [END];
        HeadlessFrame(m);
      } else {
        assert s[parsed..] == [];
      }
    }
  }

  lemma JunkParsed(junk: seq<byte>, m: seq<byte>)
    requires junk != []
    ensures var f := [END] + (Escape(m) + [END]);
      var parsed := Decode(junk + f).parsed;
      0 < parsed <= |junk| + 1 || parsed == |junk| + |f|
  {
    hide ScanBody, Escape;
    var f := [END] + (Escape(m) + [END]);
    var lead := if junk[0] == END then 1 else 0;
    assert Body(junk + f) == junk[lead..] + f;
    ScanJunk(junk[lead..], m);
  }

  /** If the bytes before it were dispatched completely, not even the first packet is lost. */
  lemma NothingLost(before: seq<byte>, ps: seq<seq<byte>>)
    requires NonEmpty(ps) && Deliver(before).rest == []
    ensures Deliver(before + Frames(ps)) == Dispatched(Deliver(before).delivered + ps, [])
  {
    DispatchConcat(before, Frames(ps));
    assert Frames(ps) + [] == Frames(ps);
    DispatchFrames(ps, [], Always, 0);
    DispatchNothing(Always, |ps|);
    hide Dispatch, Frames;
    assert ps + [] == ps;
  }

  /** After any junk, at most the first packet is lost or merged with it; all others arrive, in order. */
  lemma Resynchronisation(junk: seq<byte>, ps: seq<seq<byte>>)
    requires NonEmpty(ps) && ps != []
    ensures Deliver(junk + Frames(ps)) ==
      Dispatched(Deliver(junk + Encode(ps[0])).delivered + ps[1..], [])
  {
    hide Dispatch, Frames, Encode;
    FirstFrame(ps, []);
    FrameSettles(junk, ps[0]);
    assert junk + Frames(ps) == (junk + Encode(ps[0])) + Frames(ps[1..]) by {
      assert Frames(ps) + [] == Frames(ps) && Frames(ps[1..]) + [] == Frames(ps[1..]);
    }
    NothingLost(junk + Encode(ps[0]), ps[1..]);
  }

  // ----- Packets split between two calls -----

  /** What arrives when a frame comes in two parts, its first k bytes and the others. */
  function InTwoCalls(m: seq<byte>, k: nat): seq<seq<byte>>
    requires k <= |Encode(m)|
  {
    var first := Deliver(Encode(m)[..k]);
    first.delivered + Deliver(first.rest + Encode(m)[k..]).delivered
  }

  /** No shorter input than the frame itself decodes to m, and no other one of that length. */
  lemma {:induction false} ScanNeedsEscape(s: seq<byte>)
    requires ScanBody(s).ended
    ensures var r := ScanBody(s);
      && |Escape(r.out)| + 1 <= r.used
      && (|Escape(r.out)| + 1 == r.used ==> s[..r.used] == Escape(r.out) + [END])
    decreases |s|
  {
    hide ScanBody, Front, Escape;
    EscapeNothing();
    ScanStarts(s);
    if s[0] == END {
      assert s[..1] == [END] == [] + [END];
    } else {
      var n := FrontLength(s);
      UnfoldScan(s);
      ScanNeedsEscape(s[n..]);
      var rest := ScanBody(s[n..]);
      FrontNeedsEscape(s);
      EscapeConcat(Front(s), rest.out);
      assert s[..n + rest.used] == s[..n] + s[n..][..rest.used];
      if |Escape(ScanBody(s).out)| + 1 == ScanBody(s).used {
        assert Escape(Front(s)) + (Escape(rest.out) + [END]) == Escape(ScanBody(s).out) + [END];
      }
    }
  }

  lemma EscapeNothing()
    ensures Escape([]) == []
  {}

  lemma ScanStarts(s: seq<byte>)
    requires ScanBody(s).ended
    ensures s != [] && (s[0] == ESC ==> |s| > 1) && (s[0] == END ==> ScanBody(s) == Scan([], 1, true))
  {}

  lemma FrontNeedsEscape(s: seq<byte>)
    requires s != [] && s[0] != END && (s[0] == ESC ==> |s| > 1)
    ensures var n := FrontLength(s);
      && |Escape(Front(s))| <= n
      && (|Escape(Front(s))| == n ==> s[..n] == Escape(Front(s)))
  {}

  /** The decoder takes at least the frame for a packet, and exactly that only if it is the frame. */
  lemma DecodedNeedsFrame(s: seq<byte>)
    requires Decode(s).size > 0
    ensures var d := Decode(s);
      && |Encode(d.out)| <= d.parsed
      && (|Encode(d.out)| == d.parsed ==> s[..d.parsed] == Encode(d.out))
  {
    hide ScanBody, Escape;
    ScanNeedsEscape(Body(s));
    var r := ScanBody(Body(s));
    assert s[..1 + r.used] == [END] + Body(s)[..r.used];
  }

  lemma {:induction false} DeliveryNeedsFrame(s: seq<byte>, k: nat, m: seq<byte>)
    requires m in Dispatch(s, Always, k).delivered
    ensures |Encode(m)| <= |s| && (|Encode(m)| == |s| ==> s == Encode(m))
    decreases |s|
  {
    hide Decode, Encode, Rewritten, Dispatch;
    if s == [] {
      DispatchNothing(Always, k);
    }
    DispatchStep(s, Always, k);
    var d := Decode(s);
    if d.size > 0 && m == d.out {
      DecodedNeedsFrame(s);
      assert s[..|s|] == s;
    } else {
      DeliveryNeedsFrame(s[d.parsed..], if d.size > 0 then k + 1 else k, m);
    }
  }

  /** The packet arrives exactly if decoding its first part has left the buffer as it was. */
  lemma SplitDelivery(m: seq<byte>, k: nat)
    requires m != [] && k <= |Encode(m)|
    ensures InTwoCalls(m, k) == [m] <==> k == 0 || k == |Encode(m)| || Rewritten(Encode(m)[..k]) == Encode(m)[..k]
  {
    hide Decode, Rewritten, Encode, Dispatch;
    var f := Encode(m);
    assert f[..k] + f[k..] == f && f + [] == f;
    DispatchFrame(m, [], Always, 0);
    DispatchNothing(Always, 1);
    DispatchNothing(Always, 0);
    if k == |f| {
      assert f[..k] == f && f[k..] == [] && [] + f[k..] == [];
    } else {
      WholeAndPartial([], m, k);
      NoFrame(f[..k]);
      var rest := Deliver(f[..k]).rest;
      assert InTwoCalls(m, k) == Deliver(rest + f[k..]).delivered;
      if InTwoCalls(m, k) == [m] {
        assert m == Deliver(rest + f[k..]).delivered[0];
        DeliveryNeedsFrame(rest + f[k..], 0, m);
        assert (rest + f[k..])[..k] == rest;
      } else {
        assert rest + f[k..] != f;
      }
    }
  }

  /** Bytes that end in an END which is not escaped are dispatched completely. */
  lemma {:induction false} Settles(s: seq<byte>)
    requires |s| >= 2 && s[|s| - 1] == END && !Special(s[|s| - 2])
    ensures Deliver(s).rest == []
    decreases |s|
  {
    hide Decode, Rewritten, Deliver;
    var parsed := Decode(s).parsed;
    DecodeEnds(s);
    DeliverStep(s);
    if parsed < |s| {
      Settles(s[parsed..]);
    } else {
      assert s[parsed..] == [];
      DeliverNothing();
    }
  }

  lemma DecodeEnds(s: seq<byte>)
    requires |s| >= 2 && s[|s| - 1] == END && !Special(s[|s| - 2])
    ensures var parsed := Decode(s).parsed; 0 < parsed && (parsed == |s| || parsed <= |s| - 2)
  {
    hide ScanBody;
    ScanEnds(Body(s));
  }

  lemma {:induction false} ScanEnds(s: seq<byte>)
    requires s != [] && s[|s| - 1] == END && (|s| >= 2 ==> !Special(s[|s| - 2]))
    ensures var r := ScanBody(s); r.ended && (r.used == |s| || r.used <= |s| - 2)
    decreases |s|
  {
    if s[0] != END {
      ScanEnds(s[FrontLength(s)..]);
    }
  }

  /**
   * What later calls make of a packet that was refused: they deliver it, and what follows
   * as if nothing had happened, exactly if the decoded packet is where its frame would have
   * it, so that decoding changed nothing.
   */
  lemma RetryAfterRefusal(m: seq<byte>, t: seq<byte>, grants: Grants)
    requires m != [] && !grants(0)
    ensures Deliver(Dispatch(Encode(m), grants, 0).rest + t) == After([m], Deliver(t)) <==> m <= Encode(m)
  {
    hide Decode, Rewritten, Encode, Dispatch;
    var f := Encode(m);
    assert f + [] == f;
    DispatchFrame(m, [], grants, 0);
    RefusedBuffer(m);
    RefusedSettles(m);
    var rest := Rewritten(f);
    DispatchConcat(rest, t);
    if m <= f {
      DispatchFrame(m, t, Always, 0);
      AlwaysGranted(t, 1);
    } else if Deliver(rest + t) == After([m], Deliver(t)) {
      SameFront(Deliver(rest).delivered, [m], Deliver(t).delivered);
      assert m == Deliver(rest).delivered[0];
      DeliveryNeedsFrame(rest, 0, m);
    }
  }

  lemma SameFront<T>(a: seq<T>, b: seq<T>, more: seq<T>)
    requires a + more == b + more
    ensures a == b
  {
    assert |a + more| == |b + more|;
    assert a == (a + more)[..|a|] == (b + more)[..|b|] == b;
  }

  /** The end of the refused frame is still in the buffer. */
  lemma RefusedSettles(m: seq<byte>)
    requires m != []
    ensures Deliver(Rewritten(Encode(m))).rest == []
  {
    hide Decode, Encode, Deliver, Rewritten;
    var f := Encode(m);
    FrameEnds(m);
    EncodedSize(m);
    RefusedIs(m);
    SameEnd(m, f);
    Settles(m + f[|m|..]);
  }

  lemma RefusedIs(m: seq<byte>)
    requires m != []
    ensures |m| <= |Encode(m)| && Rewritten(Encode(m)) == m + Encode(m)[|m|..]
  {
    hide Decode, Encode;
    DecodeEncode(m, []);
    assert Encode(m) + [] == Encode(m);
  }

  lemma SameEnd(m: seq<byte>, f: seq<byte>)
    requires |m| + 2 <= |f|
    ensures var s := m + f[|m|..];
      |s| == |f| && s[|s| - 1] == f[|f| - 1] && s[|s| - 2] == f[|f| - 2]
  {}

  lemma FrameEnds(m: seq<byte>)
    requires m != []
    ensures var f := Encode(m); |f| >= 2 && f[|f| - 1] == END && !Special(f[|f| - 2])
  {
    EscapeSnoc(m[..|m| - 1], m[|m| - 1]);
    hide Escape;
    assert m == m[..|m| - 1] + [m[|m| - 1]];
  }

  lemma RefusedBuffer(m: seq<byte>)
    requires m != []
    ensures Rewritten(Encode(m)) == Encode(m) <==> m <= Encode(m)
    ensures |Rewritten(Encode(m))| == |Encode(m)|
  {
    RefusedIs(m);
    hide Decode, Encode, Rewritten;
    FrontReplaced(m, Encode(m));
  }

  lemma FrontReplaced(m: seq<byte>, f: seq<byte>)
    requires |m| <= |f|
    ensures m + f[|m|..] == f <==> m <= f
  {
    var s := m + f[|m|..];
    assert s[..|m|] == m && f == f[..|m|] + f[|m|..];
  }

  /** OSC packets do not start with END, so they are lost; a packet of one END is not. */
  lemma RefusedForGood(m: seq<byte>)
    requires m != []
    ensures m[0] != END ==> !(m <= Encode(m))
    ensures m == [END] ==> m <= Encode(m)
  {
    EscapeLength(m);
  }

  /**
   * The same for packets that do not start with END, as OSC packets never do: they only
   * survive being split right after the opening END, or before the first byte is decoded.
   */
  lemma SplitDeliveryOfPackets(m: seq<byte>, k: nat)
    requires m != [] && m[0] != END && k <= |Encode(m)|
    ensures InTwoCalls(m, k) == [m] <==> k <= 1 || (k == 2 && m[0] == ESC) || k == |Encode(m)|
  {
    hide InTwoCalls, Rewritten;
    SplitDelivery(m, k);
    if 1 <= k < |Encode(m)| {
      PartialChanges(m, k);
    }
  }

  lemma PartialChanges(m: seq<byte>, k: nat)
    requires m != [] && m[0] != END && 1 <= k < |Encode(m)|
    ensures Rewritten(Encode(m)[..k]) == Encode(m)[..k] <==> k == 1 || (k == 2 && m[0] == ESC)
  {
    hide ScanBody, Escape;
    DecodePartial(m, k);
    ScanPartial(m, k - 1);
    var t := Encode(m)[..k];
    var out := Decode(t).out;
    if out != [] {
      assert Rewritten(t)[0] == out[0] == m[0] != t[0];
    }
  }
}
