// Formats in bytes: the example of the OSC 1.0 specification, the messages of
// monobus_test.c, and each type of argument.

module Vectors {
  import opened Bytes
  import opened Osc
  import opened OscReader
  import opened OscBundle
  import opened Compositor
  import opened Canvas
  import opened Beat
  import Priority

  /** The letters of osc.h (table of types). */
  lemma Letters(t: byte)
    ensures IsNumber32(t) <==> t == 0x69 || t == 0x66
    ensures IsNumber64(t) <==> t == 0x68 || t == 0x64 || t == 0x74
    ensures IsText(t) <==> t == 0x73 || t == 0x53
    ensures IsFlag(t) <==> t !in [0x69, 0x66, 0x68, 0x64, 0x74, 0x73, 0x53, 0x62, 0x6D, 0x63, 0x72]
    ensures Letter(Blob([])) == 0x62 && Letter(Midi([])) == 0x6D && Letter(Char(0)) == 0x63
    ensures Letter(Rgba(0, 0, 0, 0)) == 0x72
  {}

  /** Numbers have their most significant byte first. */
  lemma Number32InBytes(t: byte, w: word32)
    ensures IsArg([w / 0x100_0000, w / 0x1_0000 % 0x100, w / 0x100 % 0x100, w % 0x100], Number32(t, w))
  {
    Be32Bytes(w);
    hide Be32;
  }

  lemma Number64InBytes(t: byte, v: word64)
    ensures IsArg([v / 0x100_0000_0000_0000, v / 0x1_0000_0000_0000 % 0x100, v / 0x100_0000_0000 % 0x100,
                   v / 0x1_0000_0000 % 0x100, v / 0x100_0000 % 0x100, v / 0x1_0000 % 0x100, v / 0x100 % 0x100,
                   v % 0x100], Number64(t, v))
  {
    Be64Bytes(v);
    hide Be64;
  }

  /** Characters are signed, and become words of the same value. */
  lemma CharInBytes(c: byte)
    ensures c < 0x80 ==> IsArg([0, 0, 0, c], Char(c))
    ensures c >= 0x80 ==> IsArg([0xFF, 0xFF, 0xFF, c], Char(c))
  {
    hide Be32;
    if c < 0x80 {
      Be32Bytes(c);
    } else {
      Be32Bytes(0xFFFF_FF00 + c);
    }
  }

  /** Strings end with a zero byte, and are padded to a multiple of four. */
  lemma TextInBytes(t: byte, a: byte, b: byte, c: byte, d: byte)
    ensures IsArg([0, 0, 0, 0], Text(t, [])) && IsArg([a, b, c, 0], Text(t, [a, b, c]))
    ensures IsArg([a, b, c, d, 0, 0, 0, 0], Text(t, [a, b, c, d]))
  {
    assert TextBytes([]) == [0, 0, 0, 0];
    assert TextBytes([a, b, c]) == [a, b, c, 0];
    assert TextBytes([a, b, c, d]) == [a, b, c, d, 0, 0, 0, 0];
  }

  /** Blobs start with their size, and are padded too; the others are as they are. */
  lemma BytesInBytes(t: byte, a: byte, b: byte, c: byte, d: byte)
    ensures IsArg([0, 0, 0, 0], Blob([])) && IsArg([0, 0, 0, 1, a, b, c, d], Blob([a]))
    ensures IsArg([0, 0, 0, 4, a, b, c, d], Blob([a, b, c, d]))
    ensures IsArg([a, b, c, d], Midi([a, b, c, d])) && IsArg([a, b, c, d], Rgba(a, b, c, d))
    ensures IsArg([], Flag(t))
  {
    Be32Bytes(0);
    Be32Bytes(1);
    Be32Bytes(4);
    hide Be32;
  }

  lemma ArgsCons(bs: seq<byte>, arg: Arg, rest: seq<byte>, args: seq<Arg>)
    requires IsArg(bs, arg) && IsArgs(rest, args)
    ensures IsArgs(bs + rest, [arg] + args)
  {
    IsArgHasSize(bs, arg);
    hide IsArg, ArgSize;
    assert (bs + rest)[..|bs|] == bs && (bs + rest)[|bs|..] == rest && ([arg] + args)[1..] == args;
  }

  lemma NoArgsInBytes()
    ensures IsArgs([], [])
  {}

  lemma MessageCons(path: seq<byte>, p: seq<byte>, f: seq<byte>, bs: seq<byte>, args: seq<Arg>)
    requires p == TextBytes(path) && f == TextBytes(Format(args)) && IsArgs(bs, args)
    ensures IsMessage(p + f + bs, path, args)
  {
    hide TextBytes, TextSize, Format, IsArgs;
    assert (p + f + bs)[..|p|] == p && (p + f + bs)[|p|..|p| + |f|] == f && (p + f + bs)[|p| + |f|..] == bs;
  }

  // ----- The second example of the specification: "/foo" ",iisff" 1000 -1 "hello" 1.234 5.678 -----

  const FOO: seq<byte> := [0x2F, 0x66, 0x6F, 0x6F]
  const HELLO: seq<byte> := [0x68, 0x65, 0x6C, 0x6C, 0x6F]

  const EXAMPLE: seq<Arg> := [
    Number32(0x69, 1000), Number32(0x69, 0xFFFF_FFFF), Text(0x73, HELLO),
    Number32(0x66, 0x3F9D_F3B6), Number32(0x66, 0x40B5_B22D)]

  const HEAD: seq<byte> := [0x2F, 0x66, 0x6F, 0x6F, 0, 0, 0, 0]
  const TAGS: seq<byte> := [0x2C, 0x69, 0x69, 0x73, 0x66, 0x66, 0, 0]

  function ExampleBytes(): (bs: seq<byte>)
    ensures |bs| == 40
  {
    HEAD + TAGS +
    ([0x00, 0x00, 0x03, 0xE8] + ([0xFF, 0xFF, 0xFF, 0xFF] + ([0x68, 0x65, 0x6C, 0x6C, 0x6F, 0x00, 0x00, 0x00] +
     ([0x3F, 0x9D, 0xF3, 0xB6] + [0x40, 0xB5, 0xB2, 0x2D]))))
  }

  lemma SpecificationExample()
    ensures IsMessage(ExampleBytes(), FOO, EXAMPLE) && AllWellTyped(EXAMPLE) && NulFree(FOO)
    ensures ReadMessage(ExampleBytes(), 0, 40, 40) == Some(Got(Message(FOO, EXAMPLE), 40))
  {
    hide IsMessage, ReadMessage, AllWellTyped, ExampleBytes;
    ExampleInBytes();
    assert AllWellTyped(EXAMPLE) && NulFree(FOO) by {
      ExampleIsTyped();
    }
    ReadsBack(ExampleBytes(), FOO, EXAMPLE);
  }

  lemma ExampleIsTyped()
    ensures AllWellTyped(EXAMPLE) && NulFree(FOO)
  {}

  /** Messages without MIDI events are read back as they are. */
  lemma ReadsBack(bs: seq<byte>, path: seq<byte>, args: seq<Arg>)
    requires IsMessage(bs, path, args) && NulFree(path) && AllWellTyped(args)
    requires forall i :: 0 <= i < |args| ==> !args[i].Midi?
    ensures ReadMessage(bs, 0, |bs|, |bs|) == Some(Got(Message(path, args), |bs|))
  {
    hide IsMessage, ReadMessage, AllWellTyped, NulFree;
    MessagesHaveTheirSize(bs, path, args);
    assert bs[0..|bs|] == bs;
    MessageRoundTrip(bs, 0, path, args);
    RoundTripIsExact(args, ReadMessage(bs, 0, |bs|, |bs|).value.value.args);
  }

  lemma ExampleInBytes()
    ensures IsMessage(ExampleBytes(), FOO, EXAMPLE)
  {
    ExampleTexts();
    ExampleArguments();
    hide IsMessage, IsArgs, TextBytes, Format;
    MessageCons(FOO, HEAD, TAGS, ExampleBytes()[16..], EXAMPLE);
    assert ExampleBytes() == HEAD + TAGS + ExampleBytes()[16..];
  }

  lemma ExampleTexts()
    ensures TextBytes(FOO) == HEAD && TextBytes(Format(EXAMPLE)) == TAGS
  {
    assert Format(EXAMPLE) == [0x2C, 0x69, 0x69, 0x73, 0x66, 0x66];
  }

  lemma ExampleArguments()
    ensures IsArgs(ExampleBytes()[16..], EXAMPLE)
  {
    hide IsArg, IsArgs;
    Number32InBytes(0x69, 1000);
    Number32InBytes(0x69, 0xFFFF_FFFF);
    HelloInBytes();
    Number32InBytes(0x66, 0x3F9D_F3B6);
    Number32InBytes(0x66, 0x40B5_B22D);
    FiveArgs([0x00, 0x00, 0x03, 0xE8], [0xFF, 0xFF, 0xFF, 0xFF], [0x68, 0x65, 0x6C, 0x6C, 0x6F, 0x00, 0x00, 0x00],
             [0x3F, 0x9D, 0xF3, 0xB6], [0x40, 0xB5, 0xB2, 0x2D],
             Number32(0x69, 1000), Number32(0x69, 0xFFFF_FFFF), Text(0x73, HELLO),
             Number32(0x66, 0x3F9D_F3B6), Number32(0x66, 0x40B5_B22D));
  }

  lemma FiveArgs(b1: seq<byte>, b2: seq<byte>, b3: seq<byte>, b4: seq<byte>, b5: seq<byte>,
                 a1: Arg, a2: Arg, a3: Arg, a4: Arg, a5: Arg)
    requires IsArg(b1, a1) && IsArg(b2, a2) && IsArg(b3, a3) && IsArg(b4, a4) && IsArg(b5, a5)
    ensures IsArgs(b1 + (b2 + (b3 + (b4 + b5))), [a1, a2, a3, a4, a5])
  {
    NoArgsInBytes();
    hide IsArg, IsArgs;
    ArgsCons(b5, a5, [], []);
    assert b5 + [] == b5 && [a5] + [] == [a5];
    ArgsCons(b4, a4, b5, [a5]);
    assert [a4] + [a5] == [a4, a5];
    ArgsCons(b3, a3, b4 + b5, [a4, a5]);
    assert [a3] + [a4, a5] == [a3, a4, a5];
    ArgsCons(b2, a2, b3 + (b4 + b5), [a3, a4, a5]);
    assert [a2] + [a3, a4, a5] == [a2, a3, a4, a5];
    ArgsCons(b1, a1, b2 + (b3 + (b4 + b5)), [a2, a3, a4, a5]);
    assert [a1] + [a2, a3, a4, a5] == [a1, a2, a3, a4, a5];
  }

  lemma HelloInBytes()
    ensures IsArg([0x68, 0x65, 0x6C, 0x6C, 0x6F, 0, 0, 0], Text(0x73, HELLO))
  {
    assert TextBytes(HELLO) == [0x68, 0x65, 0x6C, 0x6C, 0x6F, 0, 0, 0];
  }

  // ----- The messages of monobus_test.c -----

  /** "/monobus/0" and "/monobus/1", padded */
  const PATH0: seq<byte> := [0x2F, 0x6D, 0x6F, 0x6E, 0x6F, 0x62, 0x75, 0x73, 0x2F, 0x30]
  const PATH1: seq<byte> := [0x2F, 0x6D, 0x6F, 0x6E, 0x6F, 0x62, 0x75, 0x73, 0x2F, 0x31]

  const CLEARING: seq<byte> := [
    0x2F, 0x6D, 0x6F, 0x6E, 0x6F, 0x62, 0x75, 0x73, 0x2F, 0x30, 0, 0, 0x2C, 0, 0, 0]

  const SETTING: seq<byte> := [
    0x2F, 0x6D, 0x6F, 0x6E, 0x6F, 0x62, 0x75, 0x73, 0x2F, 0x31, 0, 0, 0x2C, 0x62, 0, 0, 0, 0, 0, 224]

  /** "/monobus/0" "," clears the whole display at priority 0. */
  lemma ClearingMessage()
    ensures IsMessage(CLEARING, PATH0, []) && Playable(PATH0, [])
    ensures Effect(CLEARING) == [Clear(0, 0, 0, 112, 16)]
  {
    ClearingTexts();
    NoArgsInBytes();
    MessageCons(PATH0, CLEARING[..12], CLEARING[12..], [], []);
    hide IsMessage, TextBytes, Effect, EffectOf;
    assert CLEARING[..12] + CLEARING[12..] + [] == CLEARING;
    EffectOfZero();
    EffectIsOfMessage(CLEARING, PATH0, []);
  }

  lemma ClearingTexts()
    ensures TextBytes(PATH0) == CLEARING[..12] && TextBytes(Format([])) == CLEARING[12..]
  {}

  lemma EffectOfZero()
    ensures EffectOf(PATH0, []) == [Clear(0, 0, 0, 112, 16)] && AllProper(EffectOf(PATH0, []))
  {
    PathsDraw(0, [], []);
    assert PATH0 == [0x2F, 0x6D, 0x6F, 0x6E, 0x6F, 0x62, 0x75, 0x73, 0x2F] + [0x30];
    hide EffectOf;
  }

  /** "/monobus/1" ",b" with 224 bytes sets the whole display at priority 1. */
  lemma SettingMessage(blob: seq<byte>)
    requires |blob| == 224
    ensures IsMessage(SETTING + blob, PATH1, [Blob(blob)]) && Playable(PATH1, [Blob(blob)])
    ensures Effect(SETTING + blob) == [Command.Set(1, 0, 0, 112, 16, blob)]
  {
    SettingBytes(blob);
    EffectOfOne(blob);
    hide IsMessage, Effect, EffectOf;
    EffectIsOfMessage(SETTING + blob, PATH1, [Blob(blob)]);
  }

  lemma SettingBytes(blob: seq<byte>)
    requires |blob| == 224
    ensures IsMessage(SETTING + blob, PATH1, [Blob(blob)])
  {
    var arg := SETTING[16..] + blob;
    Be32Bytes(224);
    hide Be32;
    assert arg[..4] == [0, 0, 0, 224] && arg[4..228] == blob;
    assert IsArg(arg, Blob(blob));
    NoArgsInBytes();
    ArgsCons(arg, Blob(blob), [], []);
    assert arg + [] == arg && [Blob(blob)] + [] == [Blob(blob)];
    SettingTexts(blob);
    MessageCons(PATH1, SETTING[..12], SETTING[12..16], arg, [Blob(blob)]);
    hide IsMessage, IsArgs, IsArg;
    assert SETTING[..12] + SETTING[12..16] + arg == SETTING + blob;
  }

  lemma SettingTexts(blob: seq<byte>)
    ensures TextBytes(PATH1) == SETTING[..12] && TextBytes(Format([Blob(blob)])) == SETTING[12..16]
  {
    assert Format([Blob(blob)]) == [0x2C, 0x62];
  }

  lemma EffectOfOne(blob: seq<byte>)
    requires |blob| == 224
    ensures EffectOf(PATH1, [Blob(blob)]) == [Command.Set(1, 0, 0, 112, 16, blob)]
    ensures AllProper(EffectOf(PATH1, [Blob(blob)]))
  {
    PathsDraw(1, [], [Blob(blob)]);
    assert PATH1 == [0x2F, 0x6D, 0x6F, 0x6E, 0x6F, 0x62, 0x75, 0x73, 0x2F] + [0x31];
    Priority.BlobAlone(1, blob);
    Priority.TotalLengthIs(112, 16);
    Priority.LengthTestSuffices(1, Priority.Area(0, 0, 0, 112, 16), blob);
    hide EffectOf, Priority.Commands, Proper;
  }

  // ----- A bundle -----

  lemma PacketCons(timetag: word64, bs: seq<byte>, items: seq<Packet>)
    requires IsItems(bs, items)
    ensures IsPacket([0x23, 0x62, 0x75, 0x6E, 0x64, 0x6C, 0x65, 0] + Be64(timetag) + bs, Bundle(timetag, items))
  {
    hide Be64, IsItems;
    var head: seq<byte> := [0x23, 0x62, 0x75, 0x6E, 0x64, 0x6C, 0x65, 0];
    var all := head + Be64(timetag) + bs;
    assert all[..8] == head && all[8..16] == Be64(timetag) && all[16..] == bs;
  }

  lemma ItemCons(bs: seq<byte>, p: Packet, rest: seq<byte>, items: seq<Packet>)
    requires IsPacket(bs, p) && |bs| == PacketSize(p) < 0x8000_0000 && IsItems(rest, items)
    ensures IsItems(Be32(|bs|) + bs + rest, [p] + items)
  {
    hide Be32, IsPacket, PacketSize;
    var all, n := Be32(|bs|) + bs + rest, |bs|;
    assert all[..4] == Be32(n) && all[4..4 + n] == bs && all[4 + n..] == rest;
    assert ([p] + items)[1..] == items;
  }

  /** "#bundle", its time tag, the size of its only item, and the item. */
  lemma BundleOfOne(timetag: word64, bs: seq<byte>, p: Packet)
    requires IsPacket(bs, p) && |bs| == PacketSize(p) < 0x8000_0000
    ensures IsPacket([0x23, 0x62, 0x75, 0x6E, 0x64, 0x6C, 0x65, 0] + Be64(timetag) + (Be32(|bs|) + bs),
                     Bundle(timetag, [p]))
  {
    NoItemsInBytes();
    hide Be32, Be64, IsPacket, IsItems, PacketSize;
    ItemCons(bs, p, [], []);
    assert Be32(|bs|) + bs + [] == Be32(|bs|) + bs && [p] + [] == [p];
    PacketCons(timetag, Be32(|bs|) + bs, [p]);
  }

  lemma NoItemsInBytes()
    ensures IsItems([], [])
  {}

  /** A bundle of one message: the message is visited, with the time tag of the bundle. */
  lemma BundledMessage(outer: word64, timetag: word64, bs: seq<byte>, path: seq<byte>, args: seq<Arg>)
    requires IsMessage(bs, path, args) && path != [] && path[0] == 0x2F && |bs| < 0x8000_0000
    ensures var all := [0x23, 0x62, 0x75, 0x6E, 0x64, 0x6C, 0x65, 0] + Be64(timetag) + (Be32(|bs|) + bs);
      Visit(outer, all).Some? && OneEvent(Visit(outer, all).value, timetag, path, args)
  {
    hide Visit, IsMessage, AllCarry, Be32, Be64;
    MessagesHaveTheirSize(bs, path, args);
    var p := Msg(path, args);
    BundleOfOne(timetag, bs, p);
    var all := [0x23, 0x62, 0x75, 0x6E, 0x64, 0x6C, 0x65, 0] + Be64(timetag) + (Be32(|bs|) + bs);
    RootedBundle(timetag, p);
    BundleRoundTrip(outer, all, Bundle(timetag, [p]));
    LeavesInOrder(outer, [p], []);
    LeavesInOrder(timetag, [p], []);
    OneCarries(Visit(outer, all).value, Leaf(timetag, path, args));
  }

  ghost predicate OneEvent(events: seq<Event>, timetag: word64, path: seq<byte>, args: seq<Arg>) {
    |events| == 1 && events[0].timetag == timetag && IsMessage(events[0].msg, path, args)
  }

  lemma RootedBundle(timetag: word64, p: Packet)
    requires Rooted(p)
    ensures Rooted(Bundle(timetag, [p]))
  {
    assert [p][1..] == [];
  }

  lemma OneCarries(events: seq<Event>, leaf: Leaf)
    requires AllCarry(events, [leaf])
    ensures OneEvent(events, leaf.timetag, leaf.path, leaf.args)
  {
    assert Carries(events[0], [leaf][0]);
  }
}
