// Open Sound Control 1.0: messages and bundles as values, and as bytes.
// Sources: osc.lv2/osc.lv2/osc.h, writer.h and reader.h.

module Osc {
  import opened Bytes

  /** One argument, with its letter in the type tag string. Floats are kept as the words that encode them. */
  datatype Arg =
    | Number32(letter: byte, w: word32)
    | Number64(letter: byte, v: word64)
    | Text(letter: byte, s: seq<byte>)
    | Blob(data: seq<byte>)
    | Midi(m: seq<byte>)
    | Char(c: byte)
    | Rgba(r: byte, g: byte, b: byte, a: byte)
    | Flag(letter: byte)

  predicate IsNumber32(t: byte) { t == 'i' as int || t == 'f' as int }
  predicate IsNumber64(t: byte) { t == 'h' as int || t == 'd' as int || t == 't' as int }
  predicate IsText(t: byte) { t == 's' as int || t == 'S' as int }

  /** Letters without data: T, F, N, I, and all that are not in the table of osc.h. */
  predicate IsFlag(t: byte) {
    && !IsNumber32(t) && !IsNumber64(t) && !IsText(t)
    && t != 'b' as int && t != 'm' as int && t != 'c' as int && t != 'r' as int
  }

  function Letter(arg: Arg): byte {
    match arg
    case Number32(t, _) => t
    case Number64(t, _) => t
    case Text(t, _) => t
    case Blob(_) => 'b' as int
    case Midi(_) => 'm' as int
    case Char(_) => 'c' as int
    case Rgba(_, _, _, _) => 'r' as int
    case Flag(t) => t
  }

  predicate NulFree(s: seq<byte>) {
    forall i :: 0 <= i < |s| ==> s[i] != 0
  }

  /** The argument is of the type that its letter says, as the variable argument list requires. */
  predicate WellTyped(arg: Arg) {
    match arg
    case Number32(t, _) => IsNumber32(t)
    case Number64(t, _) => IsNumber64(t)
    case Text(t, s) => IsText(t) && NulFree(s)
    case Blob(data) => |data| < 0x8000_0000
    case Midi(m) => true
    case Char(_) => true
    case Rgba(_, _, _, _) => true
    case Flag(t) => IsFlag(t) && t != 0
  }

  predicate AllWellTyped(args: seq<Arg>) {
    forall i :: 0 <= i < |args| ==> WellTyped(args[i])
  }

  function Letters(args: seq<Arg>): (s: seq<byte>)
    ensures |s| == |args|
  {
    seq(|args|, i requires 0 <= i < |args| => Letter(args[i]))
  }

  // ----- Bytes -----

  /** LV2_OSC_PADDED_SIZE */
  function Padded(n: nat): (p: nat)
    ensures n <= p < n + 4 && p % 4 == 0
  {
    (n + 3) / 4 * 4
  }

  function TextSize(s: seq<byte>): nat {
    Padded(|s| + 1)
  }

  /** A string ends with one to four zero bytes, so that its length is a multiple of four. */
  function TextBytes(s: seq<byte>): (bs: seq<byte>)
    ensures |bs| == TextSize(s) && bs[..|s|] == s && forall i :: |s| <= i < |bs| ==> bs[i] == 0
  {
    s + seq(TextSize(s) - |s|, _ => 0)
  }

  function ArgSize(arg: Arg): (n: nat)
    ensures n % 4 == 0
  {
    match arg
    case Number32(_, _) => 4
    case Number64(_, _) => 8
    case Text(_, s) => TextSize(s)
    case Blob(data) => 4 + Padded(|data|)
    case Midi(_) => 4
    case Char(_) => 4
    case Rgba(_, _, _, _) => 4
    case Flag(_) => 0
  }

  /** (int32_t)c for a signed char */
  function CharWord(c: byte): word32 {
    if c < 0x80 then c else 0xFFFF_FF00 + c
  }

  /** The bytes encode the argument. The padding of a blob is not specified, nor what follows a short MIDI event. */
  predicate IsArg(bs: seq<byte>, arg: Arg) {
    && |bs| == ArgSize(arg)
    && match arg
       case Number32(_, w) => bs == Be32(w)
       case Number64(_, v) => bs == Be64(v)
       case Text(_, s) => bs == TextBytes(s)
       case Blob(data) => |data| < 0x8000_0000 && bs[..4] == Be32(|data|) && bs[4..4 + |data|] == data
       case Midi(m) => |m| <= 4 && bs[..|m|] == m
       case Char(c) => bs == Be32(CharWord(c))
       case Rgba(r, g, b, a) => bs == [r, g, b, a]
       case Flag(_) => true
  }

  function ArgsSize(args: seq<Arg>): (n: nat)
    ensures n % 4 == 0
  {
    if args == [] then 0
    else
      var first, rest := ArgSize(args[0]), ArgsSize(args[1..]);
      SumOfFours(first, rest);
      first + rest
  }

  lemma SumOfFours(a: nat, b: nat)
    requires a % 4 == 0 && b % 4 == 0
    ensures (a + b) % 4 == 0
  {
    assert a + b == 4 * (a / 4 + b / 4);
  }

  predicate IsArgs(bs: seq<byte>, args: seq<Arg>)
    decreases |args|
  {
    if args == [] then bs == []
    else
      && ArgSize(args[0]) <= |bs|
      && IsArg(bs[..ArgSize(args[0])], args[0])
      && IsArgs(bs[ArgSize(args[0])..], args[1..])
  }

  const COMMA: byte := 0x2C
  const SLASH: byte := 0x2F

  function Format(args: seq<Arg>): seq<byte> {
    [COMMA] + Letters(args)
  }

  function MessageSize(path: seq<byte>, args: seq<Arg>): (n: nat)
    ensures n % 4 == 0 && n >= 8
  {
    SumOfFours(TextSize(path), TextSize(Format(args)));
    SumOfFours(TextSize(path) + TextSize(Format(args)), ArgsSize(args));
    TextSize(path) + TextSize(Format(args)) + ArgsSize(args)
  }

  /** The bytes encode the message. */
  predicate IsMessage(bs: seq<byte>, path: seq<byte>, args: seq<Arg>) {
    var p, f := TextSize(path), TextSize(Format(args));
    && p + f <= |bs|
    && bs[..p] == TextBytes(path)
    && bs[p..p + f] == TextBytes(Format(args))
    && IsArgs(bs[p + f..], args)
  }

  lemma {:induction false} ArgsHaveTheirSize(bs: seq<byte>, args: seq<Arg>)
    requires IsArgs(bs, args)
    ensures |bs| == ArgsSize(args)
    decreases |args|
  {
    if args != [] {
      ArgsHaveTheirSize(bs[ArgSize(args[0])..], args[1..]);
    }
  }

  /** Encoded messages have a length that is determined by their content, and a multiple of four. */
  lemma MessagesHaveTheirSize(bs: seq<byte>, path: seq<byte>, args: seq<Arg>)
    requires IsMessage(bs, path, args)
    ensures |bs| == MessageSize(path, args) && |bs| % 4 == 0
  {
    var p, f := TextSize(path), TextSize(Format(args));
    ArgsHaveTheirSize(bs[p + f..], args);
  }

  /** Arguments can be encoded one after the other. */
  lemma {:induction false} IsArgsAppend(bs: seq<byte>, args: seq<Arg>, bs': seq<byte>, arg: Arg)
    requires IsArgs(bs, args) && IsArg(bs', arg)
    ensures IsArgs(bs + bs', args + [arg])
    ensures ArgsSize(args + [arg]) == ArgsSize(args) + ArgSize(arg)
    decreases |args|
  {
    hide IsArg, ArgSize;
    IsArgHasSize(bs', arg);
    if args == [] {
      assert bs + bs' == bs' && args + [arg] == [arg];
      assert bs'[..|bs'|] == bs' && bs'[|bs'|..] == [] && [arg][1..] == [];
    } else {
      var n := ArgSize(args[0]);
      IsArgsAppend(bs[n..], args[1..], bs', arg);
      assert (bs + bs')[..n] == bs[..n] && (bs + bs')[n..] == bs[n..] + bs';
      assert (args + [arg])[1..] == args[1..] + [arg];
    }
  }

  lemma IsArgHasSize(bs: seq<byte>, arg: Arg)
    requires IsArg(bs, arg)
    ensures |bs| == ArgSize(arg)
  {}
}
