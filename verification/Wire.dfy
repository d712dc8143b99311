// monobusd.c: the picture is rotated into the bit order of the serial bus and sent (_beat).

module Wire {
  import opened Bits
  import opened Bytes
  import opened Compositor
  import opened Canvas
  import opened MonoBus

  const WIDTH_SER: nat := 16
  const HEIGHT_SER: nat := 112
  const STRIDE_SER: nat := 2
  const LENGTH_SER: nat := 224

  const COMMAND_LED_OUTSET: byte := 0xC0
  const COMMAND_LED_OUTDAT: byte := 0xD0
  const COMMAND_LED_OUTPUT: byte := 0xE0
  const DEVICE: byte := 0x2

  /** The byte of the bitmap, and the bit of that byte, for row y and column x of the bus. */
  function SlotByte(y: nat, x: nat): (i: nat)
    requires y < HEIGHT_SER && x < WIDTH_SER
    ensures i < LENGTH_SER
  {
    y * STRIDE_SER + (STRIDE_SER - x / 8 - 1)
  }

  function SlotBit(x: nat): nat {
    x % 8
  }

  /** No two pixels share a bit. */
  lemma SlotsAreDisjoint(y: nat, x: nat, y': nat, x': nat)
    requires y < HEIGHT_SER && x < WIDTH_SER && y' < HEIGHT_SER && x' < WIDTH_SER
    ensures SlotByte(y, x) == SlotByte(y', x') && SlotBit(x) == SlotBit(x') <==> y == y' && x == x'
  {}

  /** Every bit of the bitmap belongs to a pixel. */
  lemma SlotsCoverBitmap(i: nat, k: nat)
    requires i < LENGTH_SER && k < 8
    ensures exists y: nat, x: nat :: y < HEIGHT_SER && x < WIDTH_SER && SlotByte(y, x) == i && SlotBit(x) == k
  {
    var y, x := i / 2, 8 * (1 - i % 2) + k;
    assert SlotByte(y, x) == i && SlotBit(x) == k;
  }

  predicate WireBit(bitmap: seq<byte>, y: nat, x: nat)
    requires |bitmap| == LENGTH_SER && y < HEIGHT_SER && x < WIDTH_SER
  {
    Bit(bitmap[SlotByte(y, x)], SlotBit(x))
  }

  /** The pixels of the first rows, and the first ones of row y, are in the bitmap; all other bits are zero. */
  ghost predicate RotatedUpTo(bitmap: seq<byte>, cmds: seq<Command>, y: nat, x: nat)
    requires |bitmap| == LENGTH_SER && AllProper(cmds)
  {
    forall y', x' :: 0 <= y' < HEIGHT_SER && 0 <= x' < WIDTH_SER ==>
      WireBit(bitmap, y', x') == ((y' < y || (y' == y && x' < x)) && Shown(cmds, LAYERS, x', y'))
  }

  /** The picture on the wire is the transposed picture of the compositor. */
  ghost predicate Rotated(bitmap: seq<byte>, cmds: seq<Command>)
    requires AllProper(cmds)
  {
    && |bitmap| == LENGTH_SER
    && forall y, x :: 0 <= y < HEIGHT_SER && 0 <= x < WIDTH_SER ==>
      WireBit(bitmap, y, x) == Shown(cmds, LAYERS, x, y)
  }

  lemma ZeroesAreBlank(bitmap: seq<byte>, cmds: seq<Command>)
    requires |bitmap| == LENGTH_SER && AllProper(cmds) && forall i :: 0 <= i < LENGTH_SER ==> bitmap[i] == 0
    ensures RotatedUpTo(bitmap, cmds, 0, 0)
  {
    forall k: nat
      ensures !Bit(0, k)
    {
      BitOfZero(k);
    }
    hide Bit, Shown;
  }

  lemma OrByte(a: byte, k: nat)
    requires k < 8
    ensures Or(a, Pow2(k)) < 0x100
  {
    ByteWidth();
    Pow2Monotone(k, 8);
    OrWidth(a, Pow2(k), 8);
  }

  /** Setting one bit sets that pixel and leaves all others alone. */
  lemma OnePixel(bitmap: seq<byte>, cmds: seq<Command>, y: nat, x: nat)
    requires |bitmap| == LENGTH_SER && AllProper(cmds) && y < HEIGHT_SER && x < WIDTH_SER
    requires RotatedUpTo(bitmap, cmds, y, x)
    ensures Or(bitmap[SlotByte(y, x)], Pow2(SlotBit(x))) < 0x100
    ensures Shown(cmds, LAYERS, x, y) ==>
      RotatedUpTo(bitmap[SlotByte(y, x) := Or(bitmap[SlotByte(y, x)], Pow2(SlotBit(x)))], cmds, y, x + 1)
    ensures !Shown(cmds, LAYERS, x, y) ==> RotatedUpTo(bitmap, cmds, y, x + 1)
  {
    hide Bit, Shown, Or, Pow2;
    var i, k := SlotByte(y, x), SlotBit(x);
    OrByte(bitmap[i], k);
    if Shown(cmds, LAYERS, x, y) {
      var bitmap' := bitmap[i := Or(bitmap[i], Pow2(k))];
      forall y', x' | 0 <= y' < HEIGHT_SER && 0 <= x' < WIDTH_SER
        ensures WireBit(bitmap', y', x') == ((y' < y || (y' == y && x' < x + 1)) && Shown(cmds, LAYERS, x', y'))
      {
        SlotsAreDisjoint(y, x, y', x');
        BitOr(bitmap[i], Pow2(k), SlotBit(x'));
        BitPow2(k, SlotBit(x'));
        assert WireBit(bitmap, y', x') == ((y' < y || (y' == y && x' < x)) && Shown(cmds, LAYERS, x', y'));
      }
    }
  }

  /** The nested loops of _beat. */
  method Rotate(canvas: Canvas, bitmap: array<byte>)
    requires canvas.Valid() && bitmap.Length == LENGTH_SER
    modifies bitmap
    ensures Rotated(bitmap[..], canvas.history)
  {
    hide Shown, RotatedUpTo;
    ghost var cmds := canvas.history;
    forall i | 0 <= i < LENGTH_SER {
      bitmap[i] := 0;
    }
    ZeroesAreBlank(bitmap[..], cmds);
    var y := 0;
    while y < HEIGHT_SER
      invariant 0 <= y <= HEIGHT_SER
      invariant RotatedUpTo(bitmap[..], cmds, y, 0)
    {
      var x := 0;
      while x < WIDTH_SER
        invariant 0 <= x <= WIDTH_SER
        invariant RotatedUpTo(bitmap[..], cmds, y, x)
      {
        OnePixel(bitmap[..], cmds, y, x);
        var on := canvas.Displayed(x, y);
        if on {
          ghost var was := bitmap[..];
          var i := y * STRIDE_SER + (STRIDE_SER - x / 8 - 1);
          bitmap[i] := Or(bitmap[i], Pow2(x % 8));
          assert bitmap[..] == was[i := Or(was[i], Pow2(x % 8))];
        }
        x := x + 1;
      }
      NextRow(bitmap[..], cmds, y);
      y := y + 1;
    }
    AllRows(bitmap[..], cmds);
  }

  lemma NextRow(bitmap: seq<byte>, cmds: seq<Command>, y: nat)
    requires |bitmap| == LENGTH_SER && AllProper(cmds) && RotatedUpTo(bitmap, cmds, y, WIDTH_SER)
    ensures RotatedUpTo(bitmap, cmds, y + 1, 0)
  {
    hide Shown, WireBit;
  }

  lemma AllRows(bitmap: seq<byte>, cmds: seq<Command>)
    requires |bitmap| == LENGTH_SER && AllProper(cmds) && RotatedUpTo(bitmap, cmds, HEIGHT_SER, 0)
    ensures Rotated(bitmap, cmds)
  {
    hide Shown, WireBit;
  }

  /** The payload of an OUTSET message (led_outset). */
  const OUTSET: seq<byte> := [0x01, 0, 0, 0, 0, 0, LENGTH_SER, 0x07]

  /** The payload of an OUTDAT message (payload_led_outdat_t). */
  function Outdat(bitmap: seq<byte>): seq<byte> {
    [0xFF, LENGTH_SER] + bitmap
  }

  /**
   * Column x of row y on the bus is row x of column y on the display. It is bit x % 8 of the
   * first or the second byte of its row; the second byte holds the lower columns.
   */
  lemma PlacesOfPixels(bitmap: seq<byte>, cmds: seq<Command>, y: nat, x: nat)
    requires AllProper(cmds) && Rotated(bitmap, cmds) && y < 112 && x < 16
    ensures |bitmap| == 224 && Bit(bitmap[2 * y + 1 - x / 8], x % 8) == Shown(cmds, 32, x, y)
  {
    hide Shown, Bit;
    assert WireBit(bitmap, y, x) == Shown(cmds, LAYERS, x, y);
  }

  /** Rotating and sending: what is on the bus afterwards. */
  method SendPicture(canvas: Canvas, bitmap: array<byte>, dst: array<byte>) returns (sz: nat)
    requires canvas.Valid() && bitmap.Length == LENGTH_SER && dst.Length == 512 && dst != bitmap
    modifies bitmap, dst
    ensures sz <= 512 && Rotated(bitmap[..], canvas.history)
    ensures dst[..sz] == Frame(0xD2, Outdat(bitmap[..]))
  {
    hide Frame, Rotated;
    Rotate(canvas, bitmap);
    CommandByte();
    OutdatFits(0xD2, Outdat(bitmap[..]));
    sz := Message(dst, COMMAND_LED_OUTDAT, DEVICE, Outdat(bitmap[..]));
  }

  lemma CommandByte()
    ensures Or(COMMAND_LED_OUTSET, DEVICE) == 0xC2
    ensures Or(COMMAND_LED_OUTDAT, DEVICE) == 0xD2
    ensures Or(COMMAND_LED_OUTPUT, DEVICE) == 0xE2
  {
    assert Or(0x68, 1) == 1 + 2 * Or(0x34, 0) && Or(0xD0, 2) == 2 * Or(0x68, 1);
    assert Or(0x60, 1) == 1 + 2 * Or(0x30, 0) && Or(0xC0, 2) == 2 * Or(0x60, 1);
    assert Or(0x70, 1) == 1 + 2 * Or(0x38, 0) && Or(0xE0, 2) == 2 * Or(0x70, 1);
  }

  /** The messages of one beat: prepare, picture, show. */
  function Round(bitmap: seq<byte>): seq<Sent> {
    [Sent(0xC2, OUTSET), Sent(0xD2, Outdat(bitmap)), Sent(0xE2, [])]
  }

  /** All that one beat sends; each message is built in the same buffer. */
  method SendRound(canvas: Canvas, bitmap: array<byte>, dst: array<byte>) returns (sent: seq<byte>)
    requires canvas.Valid() && bitmap.Length == LENGTH_SER && dst.Length == 512 && dst != bitmap
    modifies bitmap, dst
    ensures Rotated(bitmap[..], canvas.history) && sent == OnTheBus(Round(bitmap[..]))
  {
    hide Frame, Rotated, Or, OnTheBus;
    CommandByte();
    OutdatFits(0xC2, OUTSET);
    var sz := Message(dst, COMMAND_LED_OUTSET, DEVICE, OUTSET);
    sent := dst[..sz];
    sz := SendPicture(canvas, bitmap, dst);
    sent := sent + dst[..sz];
    OutdatFits(0xE2, []);
    sz := Message(dst, COMMAND_LED_OUTPUT, DEVICE, []);
    sent := sent + dst[..sz];
    RoundOnTheBus(bitmap[..]);
  }

  lemma RoundOnTheBus(bitmap: seq<byte>)
    ensures OnTheBus(Round(bitmap)) == Frame(0xC2, OUTSET) + Frame(0xD2, Outdat(bitmap)) + Frame(0xE2, [])
  {
    hide Frame;
    var ms := Round(bitmap);
    assert ms[1..][1..] == [Sent(0xE2, [])] && ms[1..][1..][1..] == [];
    assert OnTheBus(ms[1..][1..]) == Frame(0xE2, []) + [];
  }

  /**
   * From commands to light: unstuffing the frame of a picture gives, at the place of every
   * pixel, the colour of the highest priority whose latest command there was a set.
   */
  lemma PictureOnTheBus(bitmap: seq<byte>, cmds: seq<Command>, y: nat, x: nat)
    requires AllProper(cmds) && Rotated(bitmap, cmds) && y < HEIGHT_SER && x < WIDTH_SER
    ensures var received := Unstuff(Inside(0xD2, Outdat(bitmap)));
      && |received| == 3 + 224 + 1
      && received[..3] == [0xD2, 0xFF, 224]
      && Bit(received[3 + 2 * y + 1 - x / 8], x % 8) == Shown(cmds, 32, x, y)
  {
    FrameRoundTrip(0xD2, Outdat(bitmap));
    hide Unstuff, Inside, Shown, Bit, Covered, Crc8;
    PlacesOfPixels(bitmap, cmds, y, x);
  }

  /**
   * From a bit of a blob to a bit on the bus: the topmost set at a pixel decides, and the
   * pixel is the same bit in the unstuffed message as it is in the blob of that set.
   */
  lemma BlobOnTheBus(bitmap: seq<byte>, cmds: seq<Command>, i: nat, row: nat, col: nat) returns (at: nat, n: nat)
    requires AllProper(cmds) && Rotated(bitmap, cmds) && row < 16 && col < 112
    requires i < |cmds| && cmds[i].Set? && LastOfItsPriority(cmds, i, row, col)
    requires forall prio: nat :: cmds[i].prio < prio < 32 ==> Cleared(cmds, prio, row, col)
    ensures var received, cmd := Unstuff(Inside(0xD2, Outdat(bitmap))), cmds[i];
      && n == 8 * ((cmd.width + 7) / 8) - cmd.width + (col - cmd.offx)
      && at == ((row - cmd.offy) * ((cmd.width + 7) / 8) + n / 8) % 0x1_0000_0000 < |cmd.blob|
      && |received| == 228
      && Bit(received[4 + 2 * col - row / 8], row % 8) == Bit(cmd.blob[at], 7 - n % 8)
  {
    hide Unstuff, Inside, Shown, Bit, Rotated, Cleared, LastOfItsPriority, Proper;
    PictureOnTheBus(bitmap, cmds, col, row);
    at, n := DisplayedPixel(cmds, i, row, col);
  }

  /** What the three messages of a beat are for whoever reads the bus. */
  lemma RoundOnTheBusDecoded(bitmap: seq<byte>)
    ensures var pieces := Pieces(OnTheBus(Round(bitmap)), []);
      && |pieces| == 3
      && 1 <= |Unstuff(pieces[0])| && 1 <= |Unstuff(pieces[1])| && 1 <= |Unstuff(pieces[2])|
      && Unstuff(pieces[0])[..|Unstuff(pieces[0])| - 1] == [0xC2, 0x01, 0, 0, 0, 0, 0, 224, 0x07]
      && Unstuff(pieces[1])[..|Unstuff(pieces[1])| - 1] == [0xD2, 0xFF, 224] + bitmap
      && Unstuff(pieces[2])[..|Unstuff(pieces[2])| - 1] == [0xE2]
  {
    hide Unstuff, Inside, Pieces, Crc8, Frame;
    var ms := Round(bitmap);
    FramesSplit(ms);
    var rest, last := ms[1..], ms[1..][1..];
    assert last == [Sent(0xE2, [])] && last[1..] == [];
    assert Insides(last) == [Inside(0xE2, [])] + Insides([]) == [Inside(0xE2, [])];
    assert Insides(rest) == [Inside(0xD2, Outdat(bitmap))] + Insides(last);
    FrameRoundTrip(0xC2, OUTSET);
    FrameRoundTrip(0xD2, Outdat(bitmap));
    FrameRoundTrip(0xE2, []);
  }
}
