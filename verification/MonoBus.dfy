// monobus.c: checksum and framing of messages on the serial bus. The constants and the
// stuffing are those of section 4.2 of RFC 1662.

module MonoBus {
  import opened Bits
  import opened Bytes

  const FRAMING: byte := 0x7E
  const ESCAPE: byte := 0x7D

  // ----- The checksum -----

  lemma ByteWidth()
    ensures Pow2(8) == 0x100
  {
    assert Pow2(4) == 2 * Pow2(3) == 4 * Pow2(2) == 8 * Pow2(1);
    assert Pow2(8) == 2 * Pow2(7) == 4 * Pow2(6) == 8 * Pow2(5);
  }

  function XorByte(a: byte, b: byte): byte {
    ByteWidth();
    XorWidth(a, b, 8);
    Xor(a, b)
  }

  function NotByte(a: byte): byte {
    ByteWidth();
    Not(a, 8)
  }

  /** The exclusive or of all bytes. */
  function XorAll(s: seq<byte>): byte {
    if s == [] then 0 else XorByte(XorAll(s[..|s| - 1]), s[|s| - 1])
  }

  function Crc8(seed: byte, data: seq<byte>): byte {
    NotByte(XorByte(NotByte(seed), XorAll(data)))
  }

  /** monobus_crc8 */
  method ComputeCrc8(seed: byte, data: array<byte>, from: nat, len: nat) returns (crc: byte)
    requires from + len <= data.Length
    ensures crc == Crc8(seed, data[from..from + len])
  {
    hide XorByte, NotByte;
    crc := NotByte(seed);
    XorWithZero(crc);
    for i := 0 to len
      invariant crc == XorByte(NotByte(seed), XorAll(data[from..from + i]))
    {
      assert data[from..from + (i + 1)] == data[from..from + i] + [data[from + i]];
      XorByteAssociative(NotByte(seed), XorAll(data[from..from + i]), data[from + i]);
      crc := XorByte(crc, data[from + i]);
    }
    crc := NotByte(crc);
  }

  lemma XorWithZero(a: byte)
    ensures XorByte(a, 0) == a && XorByte(0, a) == a
  {}

  lemma XorByteAssociative(a: byte, b: byte, c: byte)
    ensures XorByte(XorByte(a, b), c) == XorByte(a, XorByte(b, c))
  {
    XorAssociative(a, b, c);
  }

  lemma {:induction false} XorSelf(a: nat)
    ensures Xor(a, a) == 0
  {
    if a > 0 {
      XorSelf(a / 2);
    }
  }

  lemma {:induction false} XorAllConcat(a: seq<byte>, b: seq<byte>)
    ensures XorAll(a + b) == XorByte(XorAll(a), XorAll(b))
  {
    hide XorByte;
    XorWithZero(XorAll(a));
    if b == [] {
      assert a + b == a;
    } else {
      var n := |b| - 1;
      assert (a + b)[..|a + b| - 1] == a + b[..n];
      XorAllConcat(a, b[..n]);
      XorByteAssociative(XorAll(a), XorAll(b[..n]), b[n]);
    }
  }

  /** The complement is an exclusive or with all ones. */
  lemma NotIsXor(a: byte)
    ensures NotByte(a) == XorByte(a, 0xFF) && NotByte(NotByte(a)) == a
  {
    ByteWidth();
    XorAllOnes(a, 8);
  }

  /** Checksums chain: the checksum of one part is the seed for the next. */
  lemma CrcChains(seed: byte, a: seq<byte>, b: seq<byte>)
    ensures Crc8(Crc8(seed, a), b) == Crc8(seed, a + b)
  {
    NotIsXor(XorByte(NotByte(seed), XorAll(a)));
    XorAllConcat(a, b);
    XorByteAssociative(NotByte(seed), XorAll(a), XorAll(b));
  }

  /** With the seed that is used on the bus, the covered bytes and their checksum XOR to 0xFF. */
  lemma ChecksumProperty(data: seq<byte>)
    ensures XorByte(XorAll(data), Crc8(0xFF, data)) == 0xFF
  {
    var x := XorAll(data);
    assert NotByte(0xFF) == 0;
    XorWithZero(x);
    NotIsXor(x);
    XorByteAssociative(x, x, 0xFF);
    XorSelf(x);
    XorWithZero(0xFF);
  }

  // ----- What the checksum is, without naming the loop -----

  lemma {:induction false} XorCommutes(a: nat, b: nat)
    ensures Xor(a, b) == Xor(b, a)
  {
    forall k: nat
      ensures Bit(Xor(a, b), k) == Bit(Xor(b, a), k)
    {
      BitXor(a, b, k);
      BitXor(b, a, k);
    }
    BitsDetermine(Xor(a, b), Xor(b, a));
  }

  /** No bytes leave the seed, and one byte is combined with it; CrcChains does the rest. */
  lemma CrcOfOne(seed: byte, b: byte)
    ensures Crc8(seed, []) == seed && Crc8(seed, [b]) == XorByte(seed, b)
  {
    OneByte(b);
    hide XorAll, XorByte;
    XorWithZero(NotByte(seed));
    NotIsXor(seed);
    XorByteCommutes(XorByte(seed, 0xFF), b);
    NotIsXor(XorByte(NotByte(seed), b));
    XorByteAssociative(b, seed, 0xFF);
    XorByteCommutes(b, seed);
    NotIsXor(XorByte(b, seed));
  }

  lemma OneByte(b: byte)
    ensures XorAll([]) == 0 && XorAll([b]) == b
  {
    assert [b][..0] == [];
    XorWithZero(b);
  }

  lemma XorByteCommutes(a: byte, b: byte)
    ensures XorByte(a, b) == XorByte(b, a)
  {
    XorCommutes(a, b);
  }

  /** How many of the bytes have bit k. */
  function BytesWith(data: seq<byte>, k: nat): nat {
    if data == [] then 0 else (if Bit(data[0], k) then 1 else 0) + BytesWith(data[1..], k)
  }

  lemma {:induction false} BytesWithLast(data: seq<byte>, b: byte, k: nat)
    ensures BytesWith(data + [b], k) == BytesWith(data, k) + (if Bit(b, k) then 1 else 0)
  {
    hide Bit;
    if data == [] {
      assert [] + [b] == [b] && [b][1..] == [];
    } else {
      assert (data + [b])[1..] == data[1..] + [b];
      BytesWithLast(data[1..], b, k);
    }
  }

  lemma {:induction false} XorAllIsParity(data: seq<byte>, k: nat)
    ensures Bit(XorAll(data), k) <==> BytesWith(data, k) % 2 == 1
  {
    if data == [] {
      BitOfZero(k);
    } else {
      var init, b := data[..|data| - 1], data[|data| - 1];
      XorAllIsParity(init, k);
      BytesWithLast(init, b, k);
      assert data == init + [b];
      BitXor(XorAll(init), b, k);
    }
  }

  /** With the seed of the bus: a bit of the checksum is set exactly if an even number of the bytes have it. */
  lemma ChecksumIsParity(data: seq<byte>, k: nat)
    requires k < 8
    ensures Bit(Crc8(0xFF, data), k) <==> BytesWith(data, k) % 2 == 0
  {
    hide Bit, XorAll;
    XorAllIsParity(data, k);
    ByteWidth();
    assert NotByte(0xFF) == 0;
    XorWithZero(XorAll(data));
    BitNot(XorAll(data), 8, k);
  }

  // ----- Frames -----

  predicate Reserved(b: byte) {
    b == FRAMING || b == ESCAPE
  }

  function StuffByte(b: byte): (s: seq<byte>)
    ensures 1 <= |s| <= 2
  {
    if Reserved(b) then [ESCAPE, XorByte(b, 0x20)] else [b]
  }

  function Stuff(s: seq<byte>): seq<byte> {
    if s == [] then [] else Stuff(s[..|s| - 1]) + StuffByte(s[|s| - 1])
  }

  /** The bytes that the checksum covers: those on the bus, after stuffing. The command is not stuffed. */
  function Covered(command: byte, src: seq<byte>): seq<byte> {
    [command] + Stuff(src)
  }

  /** What is between the two FRAMING bytes. */
  function Inside(command: byte, src: seq<byte>): seq<byte> {
    Covered(command, src) + StuffByte(Crc8(0xFF, Covered(command, src)))
  }

  function Frame(command: byte, src: seq<byte>): seq<byte> {
    [FRAMING] + Inside(command, src) + [FRAMING]
  }

  /** The byte order of stores in the encoder: the stuffed form of b goes to dst from at on. */
  method PutStuffed(dst: array<byte>, at: nat, b: byte) returns (at': nat)
    requires at + |StuffByte(b)| <= dst.Length
    modifies dst
    ensures at' == at + |StuffByte(b)|
    ensures dst[..at'] == old(dst[..at]) + StuffByte(b) && dst[at'..] == old(dst[at'..])
  {
    if b == FRAMING {
      dst[at] := ESCAPE;
      dst[at + 1] := XorByte(b, 0x20);
      at' := at + 2;
    } else if b == ESCAPE {
      dst[at] := ESCAPE;
      dst[at + 1] := XorByte(b, 0x20);
      at' := at + 2;
    } else {
      dst[at] := b;
      at' := at + 1;
    }
    assert dst[at'..] == old(dst[at'..]);
    assert dst[..at] == old(dst[..at]);
    assert dst[..at'] == dst[..at] + dst[at..at'];
  }

  /** The loop over the payload. */
  method PutAllStuffed(dst: array<byte>, at: nat, src: seq<byte>) returns (ptr: nat)
    requires at + |Stuff(src)| <= dst.Length
    modifies dst
    ensures ptr == at + |Stuff(src)|
    ensures dst[..ptr] == old(dst[..at]) + Stuff(src) && dst[ptr..] == old(dst[ptr..])
  {
    hide StuffByte, Stuff;
    ghost var was := dst[..];
    ptr := at;
    StuffNothing();
    assert src[..0] == [] && dst[..at] == was[..at] + [];
    for i := 0 to |src|
      invariant ptr == at + |Stuff(src[..i])| <= dst.Length
      invariant dst[..ptr] == was[..at] + Stuff(src[..i]) && dst[ptr..] == was[ptr..]
    {
      StuffPrefix(src, i);
      ptr := PutStuffed(dst, ptr, src[i]);
      assert was[..at] + Stuff(src[..i]) + StuffByte(src[i]) == was[..at] + Stuff(src[..i + 1]);
    }
    assert src[..|src|] == src;
  }

  lemma StuffNothing()
    ensures Stuff([]) == []
  {}

  /** monobus_message; the caller's buffer must be large enough for the frame, which is not checked. */
  method Message(dst: array<byte>, command: byte, id: byte, src: seq<byte>) returns (len: nat)
    requires Or(command, id) < 0x100 && |Frame(Or(command, id), src)| <= dst.Length
    modifies dst
    ensures len == |Frame(Or(command, id), src)|
    ensures dst[..len] == Frame(Or(command, id), src)
    ensures dst[len..] == old(dst[len..])
  {
    hide StuffByte, Stuff, Crc8, Or;
    ghost var c: byte := Or(command, id);
    ghost var was := dst[..];
    dst[0] := FRAMING;
    dst[1] := Or(command, id);
    var ptr := PutAllStuffed(dst, 2, src);
    assert dst[..ptr] == [FRAMING] + Covered(c, src);
    assert dst[ptr..] == was[ptr..];
    assert dst[1..ptr] == dst[..ptr][1..];
    var crc := ComputeCrc8(0xFF, dst, 1, ptr - 1);
    ptr := PutStuffed(dst, ptr, crc);
    assert dst[..ptr] == [FRAMING] + Inside(c, src);
    assert dst[ptr..] == was[ptr..];
    dst[ptr] := FRAMING;
    ptr := ptr + 1;
    len := ptr;
    assert dst[len..] == was[len - 1..][1..];
  }

  lemma {:induction false} StuffConcat(a: seq<byte>, b: seq<byte>)
    ensures Stuff(a + b) == Stuff(a) + Stuff(b)
  {
    hide StuffByte;
    if b == [] {
      assert a + b == a;
    } else {
      StuffConcat(a, b[..|b| - 1]);
      assert (a + b)[..|a + b| - 1] == a + b[..|b| - 1];
    }
  }

  lemma StuffPrefix(src: seq<byte>, i: nat)
    requires i < |src|
    ensures Stuff(src[..i + 1]) == Stuff(src[..i]) + StuffByte(src[i])
    ensures |Stuff(src[..i + 1])| <= |Stuff(src)|
  {
    assert src[..i + 1][..i] == src[..i];
    StuffConcat(src[..i + 1], src[i + 1..]);
    assert src == src[..i + 1] + src[i + 1..];
  }

  // ----- Reading frames back -----

  /** A receiver's view of what is inside a frame. */
  function Unstuff(s: seq<byte>): seq<byte> {
    if s == [] then []
    else if s[0] == ESCAPE && |s| > 1 then [XorByte(s[1], 0x20)] + Unstuff(s[2..])
    else [s[0]] + Unstuff(s[1..])
  }

  lemma UnstuffOne(b: byte, t: seq<byte>)
    ensures Unstuff(StuffByte(b) + t) == [b] + Unstuff(t)
  {
    XorByteAssociative(b, 0x20, 0x20);
    XorSelf(0x20);
    XorWithZero(b);
    hide XorByte;
    var s := StuffByte(b) + t;
    assert s[|StuffByte(b)|..] == t;
  }

  lemma {:induction false} UnstuffStuff(s: seq<byte>, t: seq<byte>)
    ensures Unstuff(Stuff(s) + t) == s + Unstuff(t)
  {
    hide StuffByte, Unstuff;
    if s == [] {
      assert Stuff(s) + t == t && s + Unstuff(t) == Unstuff(t);
    } else {
      var n := |s| - 1;
      assert Stuff(s) + t == Stuff(s[..n]) + (StuffByte(s[n]) + t);
      UnstuffStuff(s[..n], StuffByte(s[n]) + t);
      UnstuffOne(s[n], t);
      assert s + Unstuff(t) == s[..n] + ([s[n]] + Unstuff(t));
    }
  }

  /** Unstuffing a frame gives back the command, the payload and the checksum. */
  lemma FrameRoundTrip(command: byte, src: seq<byte>)
    requires command >= 0x80
    ensures Unstuff(Inside(command, src)) == [command] + src + [Crc8(0xFF, Covered(command, src))]
  {
    hide Crc8;
    var crc := Crc8(0xFF, Covered(command, src));
    var tail := StuffByte(crc) + [];
    UnstuffOne(crc, []);
    UnstuffStuff(src, tail);
    assert Inside(command, src) == [command] + (Stuff(src) + tail);
    assert ([command] + (Stuff(src) + tail))[1..] == Stuff(src) + tail;
    assert [crc] + Unstuff([]) == [crc];
  }

  /** The constants and the order of the bytes in a frame. */
  lemma FrameInBytes(command: byte, src: seq<byte>, b: byte)
    ensures Stuff([0x7E]) == [0x7D, 0x5E] && Stuff([0x7D]) == [0x7D, 0x5D]
    ensures b != 0x7E && b != 0x7D ==> Stuff([b]) == [b]
    ensures Frame(command, src) ==
            [0x7E] + ([command] + Stuff(src) + Stuff([Crc8(0xFF, [command] + Stuff(src))])) + [0x7E]
  {
    StuffedConstants();
    StuffOne(0x7E);
    StuffOne(0x7D);
    StuffOne(b);
    StuffOne(Crc8(0xFF, [command] + Stuff(src)));
    hide Stuff, Crc8;
  }

  lemma StuffOne(b: byte)
    ensures Stuff([b]) == StuffByte(b)
  {
    assert [b][..0] == [];
  }

  /** A frame without payload, in bytes. */
  lemma OutputFrame()
    ensures Frame(0xE2, []) == [0x7E, 0xE2, 0x1D, 0x7E]
  {
    hide Stuff, Crc8, Frame, XorByte;
    FrameInBytes(0xE2, [], 0x1D);
    StuffNothing();
    assert [0xE2] + [] == [0xE2];
    CrcOfOne(0xFF, 0xE2);
    XorOfOutput();
    assert [0x7E] + ([0xE2] + [] + [0x1D]) + [0x7E] == [0x7E, 0xE2, 0x1D, 0x7E];
  }

  lemma XorOfOutput()
    ensures XorByte(0xFF, 0xE2) == 0x1D
  {
    ByteWidth();
    XorByteCommutes(0xFF, 0xE2);
    XorAllOnes(0xE2, 8);
  }

  ghost predicate NoFraming(s: seq<byte>) {
    forall i :: 0 <= i < |s| ==> s[i] != FRAMING
  }

  lemma StuffedByteIsClean(b: byte)
    ensures NoFraming(StuffByte(b))
  {
    StuffedConstants();
    hide XorByte;
  }

  lemma StuffedConstants()
    ensures XorByte(FRAMING, 0x20) == 0x5E && XorByte(ESCAPE, 0x20) == 0x5D
  {
    assert Xor(3, 1) == 2 * Xor(1, 0) == 2;
    assert Xor(7, 2) == 1 + 2 * Xor(3, 1);
    assert Xor(0xF, 4) == 1 + 2 * Xor(7, 2);
    assert Xor(0x1F, 8) == 1 + 2 * Xor(0xF, 4);
    assert Xor(0x3F, 0x10) == 1 + 2 * Xor(0x1F, 8);
    assert Xor(0x3E, 0x10) == 2 * Xor(0x1F, 8);
    assert Xor(0x7E, 0x20) == 2 * Xor(0x3F, 0x10);
    assert Xor(0x7D, 0x20) == 1 + 2 * Xor(0x3E, 0x10);
  }

  lemma {:induction false} StuffIsClean(s: seq<byte>)
    ensures NoFraming(Stuff(s)) && |s| <= |Stuff(s)| <= 2 * |s|
  {
    hide StuffByte;
    if s != [] {
      StuffIsClean(s[..|s| - 1]);
      StuffedByteIsClean(s[|s| - 1]);
    }
  }

  /** With the top bit of the command set, FRAMING occurs at both ends of a frame only. */
  lemma FramingDelimits(command: byte, src: seq<byte>)
    requires command >= 0x80
    ensures NoFraming(Inside(command, src))
    ensures |src| + 4 <= |Frame(command, src)| <= 2 * |src| + 5
  {
    hide Crc8;
    StuffIsClean(src);
    StuffedByteIsClean(Crc8(0xFF, Covered(command, src)));
  }

  /** The largest message of the daemon, 226 bytes of OUTDAT, fits its 512 byte buffer. */
  lemma OutdatFits(command: byte, src: seq<byte>)
    requires command >= 0x80 && |src| <= 226
    ensures |Frame(command, src)| <= 457 <= 512
  {
    FramingDelimits(command, src);
  }

  /** The non-empty pieces between FRAMING bytes. */
  function Pieces(s: seq<byte>, piece: seq<byte>): seq<seq<byte>>
    decreases |s|
  {
    if s == [] then (if piece == [] then [] else [piece])
    else if s[0] == FRAMING then (if piece == [] then [] else [piece]) + Pieces(s[1..], [])
    else Pieces(s[1..], piece + [s[0]])
  }

  lemma {:induction false} PiecesSkipClean(body: seq<byte>, t: seq<byte>, piece: seq<byte>)
    requires NoFraming(body)
    ensures Pieces(body + t, piece) == Pieces(t, piece + body)
    decreases |body|
  {
    if body == [] {
      assert body + t == t && piece + body == piece;
    } else {
      assert (body + t)[1..] == body[1..] + t;
      PiecesSkipClean(body[1..], t, piece + [body[0]]);
      assert piece + [body[0]] + body[1..] == piece + body;
    }
  }

  datatype Sent = Sent(command: byte, src: seq<byte>)

  ghost predicate TopBits(ms: seq<Sent>) {
    forall i :: 0 <= i < |ms| ==> ms[i].command >= 0x80
  }

  function OnTheBus(ms: seq<Sent>): seq<byte> {
    if ms == [] then [] else Frame(ms[0].command, ms[0].src) + OnTheBus(ms[1..])
  }

  function Insides(ms: seq<Sent>): seq<seq<byte>> {
    if ms == [] then [] else [Inside(ms[0].command, ms[0].src)] + Insides(ms[1..])
  }

  /** Frames sent one after the other split back into exactly those frames. */
  lemma {:induction false} FramesSplit(ms: seq<Sent>)
    requires TopBits(ms)
    ensures Pieces(OnTheBus(ms), []) == Insides(ms)
  {
    hide Pieces, Inside;
    if ms == [] {
      NoPieces();
    } else {
      FramesSplit(ms[1..]);
      var body, rest := Inside(ms[0].command, ms[0].src), OnTheBus(ms[1..]);
      FramingDelimits(ms[0].command, ms[0].src);
      InsideStarts(ms[0].command, ms[0].src);
      assert OnTheBus(ms) == [FRAMING] + (body + ([FRAMING] + rest));
      PiecesOfFrame(body, rest);
    }
  }

  lemma NoPieces()
    ensures Pieces([], []) == []
  {}

  lemma InsideStarts(command: byte, src: seq<byte>)
    ensures Inside(command, src) != [] && Inside(command, src)[0] == command
  {}

  lemma PiecesOfFrame(body: seq<byte>, rest: seq<byte>)
    requires NoFraming(body) && body != []
    ensures Pieces([FRAMING] + (body + ([FRAMING] + rest)), []) == [body] + Pieces(rest, [])
  {
    PiecesSkipClean(body, [FRAMING] + rest, []);
    assert [] + body == body;
    var s, t := [FRAMING] + (body + ([FRAMING] + rest)), [FRAMING] + rest;
    assert s[1..] == body + t && t[1..] == rest;
    assert Pieces(s, []) == [] + Pieces(body + t, []);
    assert Pieces(t, body) == [body] + Pieces(rest, []);
  }

  /** So the bytes on the bus determine the messages. */
  lemma FramesDecodeUniquely(ms: seq<Sent>, ms': seq<Sent>)
    requires TopBits(ms) && TopBits(ms') && OnTheBus(ms) == OnTheBus(ms')
    ensures ms == ms'
  {
    FramesSplit(ms);
    FramesSplit(ms');
    InsidesInjective(ms, ms');
  }

  lemma {:induction false} InsidesInjective(ms: seq<Sent>, ms': seq<Sent>)
    requires TopBits(ms) && TopBits(ms') && Insides(ms) == Insides(ms')
    ensures ms == ms'
  {
    if ms != [] && ms' != [] {
      var a, b := ms[0], ms'[0];
      assert Insides(ms)[0] == Inside(a.command, a.src) && Insides(ms')[0] == Inside(b.command, b.src);
      assert Insides(ms)[1..] == Insides(ms[1..]) && Insides(ms')[1..] == Insides(ms'[1..]);
      FrameRoundTrip(a.command, a.src);
      FrameRoundTrip(b.command, b.src);
      hide Unstuff, Inside, Covered, Crc8;
      var u := Unstuff(Inside(a.command, a.src));
      assert u[0] == a.command == b.command && u[1..|u| - 1] == a.src == b.src;
      InsidesInjective(ms[1..], ms'[1..]);
      assert ms == [a] + ms[1..] && ms' == [b] + ms'[1..];
    }
  }
}
