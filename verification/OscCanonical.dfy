// osc.lv2/osc.lv2/writer.h: when a message has only one encoding.
//
// The writer leaves the padding of blobs, and what is behind a short MIDI event, as the
// buffer had it before. So the bytes of a message may depend on more than the message.

module OscCanonical {
  import opened Bytes
  import opened Osc
  import opened OscWriter

  /** No byte of the encoding is left to the buffer. */
  predicate Canonical(arg: Arg) {
    && (arg.Blob? ==> |arg.data| % 4 == 0)
    && (arg.Midi? ==> |arg.m| == 4)
  }

  predicate AllCanonical(args: seq<Arg>) {
    forall i :: 0 <= i < |args| ==> Canonical(args[i])
  }

  /** The encoding in a buffer that held nothing but the byte fill before. */
  function EncodedOver(fill: byte, arg: Arg): (bs: seq<byte>)
    requires WellTyped(arg) && Encodable(arg)
    ensures IsArg(bs, arg)
  {
    match arg
    case Number32(_, w) => Be32(w)
    case Number64(_, v) => Be64(v)
    case Text(_, s) => TextBytes(s)
    case Blob(data) => Be32(|data|) + data + seq(Padded(|data|) - |data|, _ => fill)
    case Midi(m) => m + seq(4 - |m|, _ => fill)
    case Char(c) => Be32(CharWord(c))
    case Rgba(r, g, b, a) => [r, g, b, a]
    case Flag(_) => []
  }

  lemma ArgIsCanonical(arg: Arg)
    requires WellTyped(arg) && Encodable(arg)
    ensures (forall bs, bs' :: IsArg(bs, arg) && IsArg(bs', arg) ==> bs == bs') <==> Canonical(arg)
    ensures EncodedOver(0, arg) == EncodedOver(1, arg) ==> Canonical(arg)
  {
    hide Be32, Be64, TextBytes, Padded;
    if Canonical(arg) {
      forall bs, bs' | IsArg(bs, arg) && IsArg(bs', arg)
        ensures bs == bs'
      {
        CanonicalIsUnique(bs, bs', arg);
      }
    } else {
      FillShows(arg);
    }
  }

  lemma CanonicalIsUnique(bs: seq<byte>, bs': seq<byte>, arg: Arg)
    requires Canonical(arg) && IsArg(bs, arg) && IsArg(bs', arg)
    ensures bs == bs'
  {
    hide Be32, Be64, TextBytes;
    if arg.Blob? {
      assert bs == bs[..4] + bs[4..4 + |arg.data|];
      assert bs' == bs'[..4] + bs'[4..4 + |arg.data|];
    } else if arg.Midi? {
      assert bs == bs[..4] && bs' == bs'[..4];
    }
  }

  /** The last byte of an encoding that is not canonical is left over from the buffer. */
  lemma FillShows(arg: Arg)
    requires WellTyped(arg) && Encodable(arg) && !Canonical(arg)
    ensures EncodedOver(0, arg) != EncodedOver(1, arg)
  {
    hide Be32;
    var bs, bs' := EncodedOver(0, arg), EncodedOver(1, arg);
    assert bs[|bs| - 1] == 0 && bs'[|bs'| - 1] == 1;
  }

  function AllEncodedOver(fill: byte, args: seq<Arg>): (bs: seq<byte>)
    requires AllWellTyped(args) && AllEncodable(args)
    ensures IsArgs(bs, args)
    decreases |args|
  {
    if args == [] then []
    else
      hide IsArg, WellTyped, Encodable;
      var first, rest := EncodedOver(fill, args[0]), AllEncodedOver(fill, args[1..]);
      IsArgHasSize(first, args[0]);
      assert (first + rest)[..|first|] == first && (first + rest)[|first|..] == rest;
      first + rest
  }

  lemma {:induction false} ArgsUnique(bs: seq<byte>, bs': seq<byte>, args: seq<Arg>)
    requires AllCanonical(args) && IsArgs(bs, args) && IsArgs(bs', args)
    ensures bs == bs'
    decreases |args|
  {
    hide IsArg, Canonical, ArgSize;
    if args != [] {
      var n := ArgSize(args[0]);
      CanonicalIsUnique(bs[..n], bs'[..n], args[0]);
      ArgsUnique(bs[n..], bs'[n..], args[1..]);
      assert bs == bs[..n] + bs[n..] && bs' == bs'[..n] + bs'[n..];
    }
  }

  lemma {:induction false} FillsShow(args: seq<Arg>)
    requires AllWellTyped(args) && AllEncodable(args) && AllEncodedOver(0, args) == AllEncodedOver(1, args)
    ensures AllCanonical(args)
    decreases |args|
  {
    hide IsArg, IsArgs, WellTyped, Encodable, Canonical, EncodedOver, ArgSize;
    if args != [] {
      var a, b := EncodedOver(0, args[0]), EncodedOver(1, args[0]);
      var as', bs' := AllEncodedOver(0, args[1..]), AllEncodedOver(1, args[1..]);
      IsArgHasSize(a, args[0]);
      IsArgHasSize(b, args[0]);
      assert a == (a + as')[..|a|] == (b + bs')[..|b|] == b;
      assert as' == (a + as')[|a|..] == (b + bs')[|b|..] == bs';
      ArgIsCanonical(args[0]);
      FillsShow(args[1..]);
      forall i | 0 <= i < |args|
        ensures Canonical(args[i])
      {
        if i > 0 {
          assert args[i] == args[1..][i - 1];
        }
      }
    }
  }

  function MessageOver(fill: byte, path: seq<byte>, args: seq<Arg>): (bs: seq<byte>)
    requires AllWellTyped(args) && AllEncodable(args)
    ensures IsMessage(bs, path, args)
  {
    hide IsArgs, AllEncodedOver, TextBytes, Format;
    var p, f, a := TextBytes(path), TextBytes(Format(args)), AllEncodedOver(fill, args);
    assert (p + f + a)[..|p|] == p && (p + f + a)[|p|..|p| + |f|] == f && (p + f + a)[|p| + |f|..] == a;
    p + f + a
  }

  /**
   * A message determines its bytes exactly if all its blobs fill their padding and all its
   * MIDI events have four bytes.
   */
  lemma MessageIsCanonical(path: seq<byte>, args: seq<Arg>)
    requires AllWellTyped(args) && AllEncodable(args)
    ensures (forall bs, bs' :: IsMessage(bs, path, args) && IsMessage(bs', path, args) ==> bs == bs') <==>
      AllCanonical(args)
  {
    hide IsArgs, AllEncodedOver, AllWellTyped, AllEncodable, AllCanonical, TextBytes, TextSize, Format;
    if AllCanonical(args) {
      forall bs, bs' | IsMessage(bs, path, args) && IsMessage(bs', path, args)
        ensures bs == bs'
      {
        var n, k := TextSize(path), TextSize(path) + TextSize(Format(args));
        ArgsUnique(bs[k..], bs'[k..], args);
        assert bs == bs[..n] + bs[n..k] + bs[k..] && bs' == bs'[..n] + bs'[n..k] + bs'[k..];
      }
    } else {
      var k := TextSize(path) + TextSize(Format(args));
      var bs, bs' := MessageOver(0, path, args), MessageOver(1, path, args);
      if bs == bs' {
        assert AllEncodedOver(0, args) == bs[k..] == AllEncodedOver(1, args);
        FillsShow(args);
      }
    }
  }
}
