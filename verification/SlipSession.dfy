// osc.lv2/osc.lv2/stream.h: a connection over many calls of recv.
//
// The decoder shifts bytes in the buffer even when it finds no whole frame, or when
// there is no room for the packet, and those shifted bytes are what the next call starts
// with. So how the bytes of a connection are split between calls matters, and so does
// every refused request. This module says exactly how.

module SlipSession {
  import opened Bytes
  import opened Slip
  import opened SlipStream

  /** What a connection delivers when its bytes arrive in these pieces, and what it still keeps afterwards. */
  function ReceiveAll(kept: seq<byte>, inputs: seq<seq<byte>>, grants: seq<Grants>): Dispatched
    requires |grants| == |inputs|
    decreases |inputs|
  {
    if inputs == [] then Dispatched([], kept)
    else
      var d := Dispatch(kept + inputs[0], grants[0], 0);
      After(d.delivered, ReceiveAll(d.rest, inputs[1..], grants[1..]))
  }

  function Joined(inputs: seq<seq<byte>>): seq<byte> {
    if inputs == [] then [] else inputs[0] + Joined(inputs[1..])
  }

  /** Packets that start with neither END nor ESC; OSC packets start with a slash or a number sign. */
  ghost predicate Plain(ps: seq<seq<byte>>) {
    forall i :: 0 <= i < |ps| ==> ps[i] != [] && !Special(ps[i][0])
  }

  // ----- The first n bytes of the frames -----

  /** How many of the packets are whole in the first n bytes of their frames. */
  function WholeIn(ps: seq<seq<byte>>, n: nat): (j: nat)
    ensures j <= |ps|
  {
    if ps == [] || n < |Encode(ps[0])| then 0 else 1 + WholeIn(ps[1..], n - |Encode(ps[0])|)
  }

  /** What these bytes contain of the next frame. */
  function Partial(ps: seq<seq<byte>>, n: nat): (t: seq<byte>)
    ensures |t| <= n
  {
    if ps == [] then []
    else if n < |Encode(ps[0])| then Encode(ps[0])[..n]
    else Partial(ps[1..], n - |Encode(ps[0])|)
  }

  /** Position n is between two frames, or just behind the END that opens one. */
  predicate SafeCut(ps: seq<seq<byte>>, n: nat) {
    |Partial(ps, n)| <= 1
  }

  /** Every piece ends at such a position, when start bytes of the frames came before them. */
  predicate SafeCuts(ps: seq<seq<byte>>, start: nat, inputs: seq<seq<byte>>)
    decreases |inputs|
  {
    inputs == [] || (SafeCut(ps, start + |inputs[0]|) && SafeCuts(ps, start + |inputs[0]|, inputs[1..]))
  }

  /** The decoder leaves what it gets of the next frame as it was. */
  predicate IntactCut(ps: seq<seq<byte>>, n: nat) {
    Keeps(Partial(ps, n)) == Partial(ps, n)
  }

  predicate IntactCuts(ps: seq<seq<byte>>, start: nat, inputs: seq<seq<byte>>)
    decreases |inputs|
  {
    inputs == [] || (IntactCut(ps, start + |inputs[0]|) && IntactCuts(ps, start + |inputs[0]|, inputs[1..]))
  }

  /** What a call keeps of the bytes t that are not a whole frame. */
  function Keeps(t: seq<byte>): (kept: seq<byte>)
    ensures |kept| == |t|
  {
    if t == [] then [] else Rewritten(t)
  }

  ghost predicate Granted(grants: Grants, n: nat) {
    forall i :: 0 <= i < n ==> grants(i)
  }

  /** Every call has as many requests granted as there are frames that end in its piece. */
  ghost predicate NoRefusals(ps: seq<seq<byte>>, start: nat, inputs: seq<seq<byte>>, grants: seq<Grants>)
    requires |grants| == |inputs|
    decreases |inputs|
  {
    inputs == [] || (
      var n := start + |inputs[0]|;
      && Granted(grants[0], if WholeIn(ps, start) <= WholeIn(ps, n) then WholeIn(ps, n) - WholeIn(ps, start) else 0)
      && NoRefusals(ps, n, inputs[1..], grants[1..]))
  }

  lemma LongFrame(m: seq<byte>)
    requires m != []
    ensures |Encode(m)| >= 3 && Encode(m)[0] == END
  {
    EscapeLength(m);
  }

  lemma SliceTail(ps: seq<seq<byte>>, j: nat)
    requires 0 < j <= |ps|
    ensures ps[..j] != [] && ps[..j][0] == ps[0]
    ensures ps[..j][1..] == ps[1..][..j - 1] && ps[1..][j - 1..] == ps[j..]
  {}

  /** The first n bytes are whole frames, and a proper part of the next one. */
  lemma {:induction false} SplitFrames(ps: seq<seq<byte>>, n: nat)
    requires NonEmpty(ps) && n <= |Frames(ps)|
    ensures var j := WholeIn(ps, n);
      && Frames(ps) == Frames(ps[..j]) + Frames(ps[j..])
      && |Frames(ps[..j])| + |Partial(ps, n)| == n
      && (j < |ps| ==> |Partial(ps, n)| < |Encode(ps[j])| <= |Frames(ps[j..])|
                       && Partial(ps, n) == Encode(ps[j])[..|Partial(ps, n)|])
      && (j == |ps| ==> n == |Frames(ps)| && Partial(ps, n) == [] && Frames(ps[j..]) == [])
  {
    hide Encode;
    var j := WholeIn(ps, n);
    if j == 0 {
      assert ps[..0] == [] && ps[0..] == ps;
    } else {
      SplitFrames(ps[1..], n - |Encode(ps[0])|);
      SliceTail(ps, j);
    }
  }

  /** Behind whole frames, positions are counted from their end. */
  lemma {:induction false} Behind(ps: seq<seq<byte>>, j: nat, n: nat)
    requires NonEmpty(ps) && j <= |ps| && |Frames(ps[..j])| <= n
    ensures Partial(ps, n) == Partial(ps[j..], n - |Frames(ps[..j])|)
    ensures WholeIn(ps, n) == j + WholeIn(ps[j..], n - |Frames(ps[..j])|)
  {
    hide Encode;
    if j == 0 {
      assert ps[..0] == [] && ps[0..] == ps;
    } else {
      SliceTail(ps, j);
      Behind(ps[1..], j - 1, n - |Encode(ps[0])|);
    }
  }

  lemma {:induction false} CutsBehind(ps: seq<seq<byte>>, j: nat, start: nat, inputs: seq<seq<byte>>,
                                      grants: seq<Grants>)
    requires NonEmpty(ps) && j <= |ps| && |Frames(ps[..j])| <= start && |grants| == |inputs|
    ensures var at := start - |Frames(ps[..j])|;
      && SafeCuts(ps, start, inputs) == SafeCuts(ps[j..], at, inputs)
      && IntactCuts(ps, start, inputs) == IntactCuts(ps[j..], at, inputs)
      && NoRefusals(ps, start, inputs, grants) == NoRefusals(ps[j..], at, inputs, grants)
    decreases |inputs|
  {
    hide Partial, WholeIn, Frames, Keeps;
    if inputs != [] {
      Behind(ps, j, start);
      Behind(ps, j, start + |inputs[0]|);
      CutsBehind(ps, j, start + |inputs[0]|, inputs[1..], grants[1..]);
    }
  }

  // ----- One call -----

  lemma PrefixOfConcat(a: seq<byte>, b: seq<byte>, n: nat)
    requires |a| <= n <= |a| + |b|
    ensures (a + b)[..n] == a + b[..n - |a|]
  {}

  /** The first n bytes, when all requests are granted: the whole frames arrive. */
  lemma GrantedCall(ps: seq<seq<byte>>, n: nat, grants: Grants)
    requires NonEmpty(ps) && n <= |Frames(ps)| && Granted(grants, WholeIn(ps, n))
    ensures Dispatch(Frames(ps)[..n], grants, 0) == Dispatched(ps[..WholeIn(ps, n)], Keeps(Partial(ps, n)))
  {
    SplitFrames(ps, n);
    var j, t := WholeIn(ps, n), Partial(ps, n);
    FirstBytes(ps, n);
    DispatchFrames(ps[..j], t, grants, 0);
    if t != [] {
      DecodePartial(ps[j], |t|);
      DispatchStep(t, grants, j);
    }
    hide Encode, Rewritten, Decode, WholeIn, Partial, Frames;
    assert ps[..j] + [] == ps[..j];
  }

  lemma FirstBytes(ps: seq<seq<byte>>, n: nat)
    requires NonEmpty(ps) && n <= |Frames(ps)|
    ensures Frames(ps)[..n] == Frames(ps[..WholeIn(ps, n)]) + Partial(ps, n)
  {
    hide WholeIn, Partial, Encode, Frames;
    SplitFrames(ps, n);
    var j := WholeIn(ps, n);
    PrefixOfConcat(Frames(ps[..j]), Frames(ps[j..]), n);
    if j < |ps| {
      FirstFrame(ps[j..], []);
      assert Frames(ps[j..]) + [] == Frames(ps[j..]);
    }
  }

  /** A refused request: the packets before it arrive, and what is kept starts with the refused packet, decoded. */
  lemma RefusedCall(ps: seq<seq<byte>>, n: nat, grants: Grants, q: nat)
    requires NonEmpty(ps) && n <= |Frames(ps)| && q < WholeIn(ps, n) && Granted(grants, q) && !grants(q)
    ensures var d := Dispatch(Frames(ps)[..n], grants, 0);
      && d.delivered == ps[..q] && |Frames(ps[..q])| + |d.rest| == n
      && d.rest != [] && d.rest[0] == ps[q][0]
  {
    hide WholeIn, Partial, Frames, Encode, Dispatch;
    var behind := FrameAmong(ps, n, q);
    Refused(ps[..q], ps[q], behind, grants);
    FirstOfConcat(ps[q], (Encode(ps[q]) + behind)[|ps[q]|..]);
  }

  lemma FirstOfConcat(m: seq<byte>, t: seq<byte>)
    requires m != []
    ensures m + t != [] && (m + t)[0] == m[0]
  {}

  /** A whole frame, the frames before it, and what is behind it. */
  lemma FrameAmong(ps: seq<seq<byte>>, n: nat, q: nat) returns (behind: seq<byte>)
    requires NonEmpty(ps) && n <= |Frames(ps)| && q < WholeIn(ps, n)
    ensures Frames(ps)[..n] == Frames(ps[..q]) + (Encode(ps[q]) + behind)
  {
    hide WholeIn, Partial, Frames, Encode;
    var j, t := WholeIn(ps, n), Partial(ps, n);
    FirstBytes(ps, n);
    FramesConcat(ps[..q], ps[q..j]);
    assert ps[..q] + ps[q..j] == ps[..j] && ps[q..j] == [ps[q]] + ps[q + 1..j];
    FramesCons(ps[q], ps[q + 1..j]);
    behind := Frames(ps[q + 1..j]) + t;
    Regroup(Frames(ps[..q]), Encode(ps[q]), Frames(ps[q + 1..j]), t);
  }

  lemma Regroup(a: seq<byte>, b: seq<byte>, c: seq<byte>, d: seq<byte>)
    ensures a + (b + c) + d == a + (b + (c + d))
  {}

  lemma FramesCons(p: seq<byte>, ps: seq<seq<byte>>)
    ensures Frames([p] + ps) == Encode(p) + Frames(ps)
  {
    assert ([p] + ps)[1..] == ps;
  }

  lemma {:induction false} FramesConcat(a: seq<seq<byte>>, b: seq<seq<byte>>)
    ensures Frames(a + b) == Frames(a) + Frames(b)
  {
    hide Frames, Encode;
    if a == [] {
      assert a + b == b;
      NoFrame(Frames(b));
    } else {
      FramesConcat(a[1..], b);
      assert a + b == [a[0]] + (a[1..] + b) && a == [a[0]] + a[1..];
      FramesCons(a[0], a[1..] + b);
      FramesCons(a[0], a[1..]);
    }
  }

  // ----- Nothing is delivered for free -----

  /** Delivered packets and kept bytes never take more than what was received. */
  lemma {:induction false} DispatchCosts(s: seq<byte>, grants: Grants, k: nat)
    ensures var d := Dispatch(s, grants, k); |Frames(d.delivered)| + |d.rest| <= |s|
    decreases |s|
  {
    hide Decode, Rewritten, Dispatch, Frames, Encode;
    NoFrame([]);
    if s == [] {
      DispatchNothing(grants, k);
    } else {
      var d := Decode(s);
      DispatchStep(s, grants, k);
      if d.parsed > 0 && (d.size == 0 || grants(k)) {
        DispatchCosts(s[d.parsed..], grants, if d.size > 0 then k + 1 else k);
        if d.size > 0 {
          DecodedNeedsFrame(s);
          FramesCons(d.out, Dispatch(s[d.parsed..], grants, k + 1).delivered);
        }
      }
    }
  }

  lemma {:induction false} SessionCosts(kept: seq<byte>, inputs: seq<seq<byte>>, grants: seq<Grants>)
    requires |grants| == |inputs|
    ensures var r := ReceiveAll(kept, inputs, grants);
      |Frames(r.delivered)| + |r.rest| <= |kept| + |Joined(inputs)|
    decreases |inputs|
  {
    hide Dispatch, Frames;
    NoFrame([]);
    if inputs != [] {
      var d := Dispatch(kept + inputs[0], grants[0], 0);
      DispatchCosts(kept + inputs[0], grants[0], 0);
      SessionCosts(d.rest, inputs[1..], grants[1..]);
      FramesConcat(d.delivered, ReceiveAll(d.rest, inputs[1..], grants[1..]).delivered);
    }
  }

  // ----- A shifted buffer never recovers its frame -----

  /** What is kept without an opening END is kept further, or it is thrown away. */
  lemma HeadlessCall(s: seq<byte>, grants: Grants)
    requires s != [] && !Special(s[0])
    ensures var d := Dispatch(s, grants, 0);
      || (d.delivered == [] && |d.rest| == |s| && d.rest[0] == s[0])
      || |Frames(d.delivered)| + |d.rest| < |s|
  {
    hide Dispatch, Frames, Rewritten, ScanBody;
    var d := Decode(s);
    DispatchStep(s, grants, 0);
    if d.parsed == 0 {
      HeadlessStays(s);
    } else {
      DispatchCosts(s[d.parsed..], grants, 0);
    }
  }

  lemma HeadlessStays(s: seq<byte>)
    requires s != [] && !Special(s[0])
    ensures Rewritten(s)[0] == s[0]
  {
    hide ScanBody;
    UnfoldScan(s);
  }

  /** Whatever follows it, and whatever is granted, less is delivered than what these bytes could have framed. */
  lemma {:induction false} HeadlessSession(kept: seq<byte>, inputs: seq<seq<byte>>, grants: seq<Grants>)
    requires kept != [] && !Special(kept[0]) && |grants| == |inputs|
    ensures |Frames(ReceiveAll(kept, inputs, grants).delivered)| < |kept| + |Joined(inputs)|
    decreases |inputs|
  {
    hide Dispatch, Frames;
    NoFrame([]);
    if inputs != [] {
      var s := kept + inputs[0];
      var d := Dispatch(s, grants[0], 0);
      HeadlessCall(s, grants[0]);
      FramesConcat(d.delivered, ReceiveAll(d.rest, inputs[1..], grants[1..]).delivered);
      SessionCosts(d.rest, inputs[1..], grants[1..]);
      if d.delivered == [] && |d.rest| == |s| && d.rest[0] == s[0] {
        HeadlessSession(d.rest, inputs[1..], grants[1..]);
      }
    }
  }

  // ----- Whole connections -----

  /**
   * A connection of OSC packets delivers all of them, and then keeps nothing, if and only
   * if no request is refused and no call ends inside a frame, except just behind its
   * opening END.
   */
  lemma SessionDelivers(ps: seq<seq<byte>>, inputs: seq<seq<byte>>, grants: seq<Grants>)
    requires Plain(ps) && Joined(inputs) == Frames(ps) && |grants| == |inputs|
    ensures ReceiveAll([], inputs, grants).delivered == ps
            <==> SafeCuts(ps, 0, inputs) && NoRefusals(ps, 0, inputs, grants)
    ensures ReceiveAll([], inputs, grants).delivered == ps ==> ReceiveAll([], inputs, grants).rest == []
  {
    NothingWhole(ps);
    hide Joined, Frames, WholeIn, SafeCuts, NoRefusals, ReceiveAll;
    assert [] + Joined(inputs) == Joined(inputs);
    SessionCosts([], inputs, grants);
    if SafeCuts(ps, 0, inputs) && NoRefusals(ps, 0, inputs, grants) {
      SafeCutsAreIntact(ps, 0, inputs);
      IntactSession(ps, [], inputs, grants);
    } else {
      DisturbedSession(ps, [], inputs, grants);
    }
  }

  lemma NothingWhole(ps: seq<seq<byte>>)
    requires NonEmpty(ps)
    ensures WholeIn(ps, 0) == 0 && Partial(ps, 0) == []
  {
    if ps != [] {
      LongFrame(ps[0]);
    }
  }

  /**
   * For any packets, no matter what they start with, it is enough that every call leaves
   * what it gets of the next frame as it was.
   */
  lemma {:induction false} IntactSession(ps: seq<seq<byte>>, kept: seq<byte>, inputs: seq<seq<byte>>,
                                         grants: seq<Grants>)
    requires NonEmpty(ps) && kept + Joined(inputs) == Frames(ps) && |grants| == |inputs|
    requires WholeIn(ps, |kept|) == 0 && (inputs == [] ==> kept == [])
    requires IntactCuts(ps, |kept|, inputs) && NoRefusals(ps, |kept|, inputs, grants)
    ensures ReceiveAll(kept, inputs, grants) == Dispatched(ps, [])
    decreases |inputs|
  {
    hide Dispatch, Encode, Frames, Partial, WholeIn, Keeps;
    if inputs == [] {
      NoBytesNoPackets(ps);
    } else {
      var n := |kept| + |inputs[0]|;
      FirstPiece(ps, kept, inputs);
      GrantedCall(ps, n, grants[0]);
      var j, t := WholeIn(ps, n), Partial(ps, n);
      NextPieces(ps, n, Joined(inputs[1..]));
      CutsBehind(ps, j, n, inputs[1..], grants[1..]);
      IntactSession(ps[j..], t, inputs[1..], grants[1..]);
      assert ps[..j] + ps[j..] == ps;
    }
  }

  lemma NoBytesNoPackets(ps: seq<seq<byte>>)
    requires NonEmpty(ps) && Frames(ps) == []
    ensures ps == []
  {
    if ps != [] {
      LongFrame(ps[0]);
    }
  }

  lemma FirstPiece(ps: seq<seq<byte>>, kept: seq<byte>, inputs: seq<seq<byte>>)
    requires inputs != [] && kept + Joined(inputs) == Frames(ps)
    ensures var n := |kept| + |inputs[0]|;
      n <= |Frames(ps)| && kept + inputs[0] == Frames(ps)[..n] && Frames(ps)[n..] == Joined(inputs[1..])
  {
    hide Frames;
    assert kept + Joined(inputs) == kept + inputs[0] + Joined(inputs[1..]);
  }

  /** The bytes behind the first call are what is left of the next frame, and the other frames. */
  lemma NextPieces(ps: seq<seq<byte>>, n: nat, more: seq<byte>)
    requires NonEmpty(ps) && n <= |Frames(ps)| && Frames(ps)[n..] == more
    ensures var j, t := WholeIn(ps, n), Partial(ps, n);
      && t + more == Frames(ps[j..]) && WholeIn(ps[j..], |t|) == 0
      && |Frames(ps[..j])| + |t| == n && (more == [] ==> t == [])
  {
    hide WholeIn, Partial, Frames, Encode;
    SplitFrames(ps, n);
    FirstBytes(ps, n);
    var j, t := WholeIn(ps, n), Partial(ps, n);
    SameRemainder(Frames(ps[..j]), Frames(ps[j..]), t, more, n);
    Behind(ps, j, n);
  }

  lemma SameRemainder(a: seq<byte>, b: seq<byte>, t: seq<byte>, more: seq<byte>, n: nat)
    requires n <= |a + b| && (a + b)[..n] == a + t && (a + b)[n..] == more
    ensures t + more == b
  {
    assert a + b == (a + b)[..n] + (a + b)[n..] == a + (t + more);
    assert b == (a + b)[|a|..] == (a + (t + more))[|a|..];
  }

  /** For packets that do not start with END or ESC, the two kinds of cuts are the same. */
  lemma {:induction false} SafeCutsAreIntact(ps: seq<seq<byte>>, start: nat, inputs: seq<seq<byte>>)
    requires Plain(ps) && start + |Joined(inputs)| == |Frames(ps)|
    ensures SafeCuts(ps, start, inputs) == IntactCuts(ps, start, inputs)
    decreases |inputs|
  {
    hide Frames, SafeCut, IntactCut;
    if inputs != [] {
      SafeCutIsIntact(ps, start + |inputs[0]|);
      SafeCutsAreIntact(ps, start + |inputs[0]|, inputs[1..]);
    }
  }

  lemma SafeCutIsIntact(ps: seq<seq<byte>>, n: nat)
    requires Plain(ps) && n <= |Frames(ps)|
    ensures SafeCut(ps, n) == IntactCut(ps, n)
    ensures !SafeCut(ps, n) ==> WholeIn(ps, n) < |ps| && Keeps(Partial(ps, n)) != []
                                && Keeps(Partial(ps, n))[0] == ps[WholeIn(ps, n)][0]
  {
    SplitFrames(ps, n);
    hide WholeIn, Partial, Frames, Encode, Rewritten;
    var t := Partial(ps, n);
    if t != [] {
      PartialFrame(ps[WholeIn(ps, n)], |t|);
      LongFrame(ps[WholeIn(ps, n)]);
    }
  }

  /** The decoder leaves a part of a frame alone only if it is at most the opening END. */
  lemma PartialFrame(m: seq<byte>, k: nat)
    requires m != [] && !Special(m[0]) && 1 <= k < |Encode(m)|
    ensures k == 1 ==> Rewritten(Encode(m)[..k]) == Encode(m)[..k]
    ensures k > 1 ==> Rewritten(Encode(m)[..k])[0] == m[0]
  {
    DecodePartial(m, k);
    ScanPartial(m, k - 1);
    hide ScanBody, Escape;
  }

  /** After one bad cut, or one refusal, no continuation delivers everything. */
  lemma {:induction false} DisturbedSession(ps: seq<seq<byte>>, kept: seq<byte>, inputs: seq<seq<byte>>,
                                            grants: seq<Grants>)
    requires Plain(ps) && kept + Joined(inputs) == Frames(ps) && |grants| == |inputs| && WholeIn(ps, |kept|) == 0
    requires !(SafeCuts(ps, |kept|, inputs) && NoRefusals(ps, |kept|, inputs, grants))
    ensures |Frames(ReceiveAll(kept, inputs, grants).delivered)| < |Frames(ps)|
    decreases |inputs|
  {
    hide Dispatch, Encode, Frames, Partial, WholeIn, Keeps, SafeCut, IntactCut;
    var n := |kept| + |inputs[0]|;
    FirstPiece(ps, kept, inputs);
    var j, d := WholeIn(ps, n), Dispatch(kept + inputs[0], grants[0], 0);
    var r := ReceiveAll(d.rest, inputs[1..], grants[1..]);
    FramesConcat(d.delivered, r.delivered);
    NextPieces(ps, n, Joined(inputs[1..]));
    if !Granted(grants[0], j) {
      var q := FirstRefusal(grants[0], j);
      RefusedCall(ps, n, grants[0], q);
      HeadlessSession(d.rest, inputs[1..], grants[1..]);
    } else {
      GrantedCall(ps, n, grants[0]);
      SafeCutIsIntact(ps, n);
      if SafeCut(ps, n) {
        IntactMeans(ps, n);
        CutsBehind(ps, j, n, inputs[1..], grants[1..]);
        DisturbedSession(ps[j..], d.rest, inputs[1..], grants[1..]);
      } else {
        HeadlessSession(d.rest, inputs[1..], grants[1..]);
      }
    }
  }

  lemma IntactMeans(ps: seq<seq<byte>>, n: nat)
    requires IntactCut(ps, n)
    ensures Keeps(Partial(ps, n)) == Partial(ps, n)
  {}

  lemma {:induction false} FirstRefusal(grants: Grants, n: nat) returns (q: nat)
    requires !Granted(grants, n)
    ensures q < n && Granted(grants, q) && !grants(q)
  {
    if Granted(grants, n - 1) {
      q := n - 1;
    } else {
      q := FirstRefusal(grants, n - 1);
    }
  }
}
