// monobus.c and monobusd.c: 32 layers of pixels over a display of 112 by 16, and what is seen of them.

module Compositor {
  import opened Bits
  import opened Bytes

  const WIDTH_NET := 112
  const HEIGHT_NET := 16
  const LAYERS: nat := 32

  /** pixel_t: which layers cover the pixel, and what they show; bits of other layers are stale. */
  datatype Pixel = Pixel(mask: nat, bits: nat) {
    ghost predicate Valid() {
      mask < Pow2(LAYERS) && bits < Pow2(LAYERS)
    }
  }

  // ----- Bitmaps -----

  /** monobus_stride_for_width, with the wrap-around of its unsigned argument. */
  function Stride(width: word32): nat {
    (width + 7) % 0x1_0000_0000 / 8
  }

  /** Bytes are rounded up, as long as the sum does not wrap around. */
  lemma StrideRoundsUp(width: word32)
    ensures width + 7 < 0x1_0000_0000 ==> width <= 8 * Stride(width) < width + 8
    ensures width + 7 >= 0x1_0000_0000 ==> Stride(width) == 0
  {}

  /** Which byte of a blob, and which bit of that byte, holds pixel x of row y (_get_bit in monobus.c). */
  function BlobByte(y: nat, x: nat, width: nat): int
    requires x < width && width + 7 < 0x1_0000_0000
  {
    y * Stride(width) + (Stride(width) - (width - x - 1) / 8 - 1)
  }

  /** The byte that the code reads: its arithmetic is unsigned, and wraps around. */
  function Access(y: nat, x: nat, width: nat): nat
    requires x < width && width + 7 < 0x1_0000_0000
  {
    BlobByte(y, x, width) % 0x1_0000_0000
  }

  function BlobBit(x: nat, width: nat): nat
    requires x < width
  {
    (width - x - 1) % 8
  }

  /** Every byte of a bitmap is below stride times height, and in its row. */
  lemma BlobByteInRange(y: nat, x: nat, width: nat, height: nat)
    requires x < width && width + 7 < 0x1_0000_0000 && y < height
    ensures 0 <= y * Stride(width) <= BlobByte(y, x,
      width) < y * Stride(width) + Stride(width) <= Stride(width) * height
  {
    StrideRoundsUp(width);
    RowsFit(y, height, Stride(width));
    hide Stride;
  }

  /** As long as the bitmap has less than 2^32 bytes, the arithmetic does not wrap around. */
  lemma AccessInRange(y: nat, x: nat, width: nat, height: nat)
    requires x < width && width + 7 < 0x1_0000_0000 && y < height && Stride(width) * height <= 0x1_0000_0000
    ensures Access(y, x, width) == BlobByte(y, x, width) < Stride(width) * height
  {
    BlobByteInRange(y, x, width, height);
    hide BlobByte, Stride;
  }

  predicate GetBit(blob: seq<byte>, y: nat, x: nat, width: nat)
    requires x < width && width + 7 < 0x1_0000_0000 && Access(y, x, width) < |blob|
  {
    And(blob[Access(y, x, width)], Pow2(BlobBit(x, width))) != 0
  }

  /** The pixel at bit position n of a row, the most significant bit of its first byte being position 0. */
  predicate PackedBit(row: seq<byte>, n: nat)
    requires n / 8 < |row|
  {
    Bit(row[n / 8], 7 - n % 8)
  }

  /** Rows are packed to the right: pixel x is at position 8 * stride - width + x of its row. */
  lemma RowsAreRightAligned(blob: seq<byte>, y: nat, x: nat, width: nat, height: nat)
    requires x < width && width + 7 < 0x1_0000_0000 && y < height
    requires Stride(width) * height <= |blob| <= 0x1_0000_0000
    ensures var stride, n := Stride(width), 8 * Stride(width) - width + x;
      && 0 <= y * stride && y * stride + stride <= |blob| && 0 <= n && n / 8 < stride
      && Access(y, x, width) < |blob|
      && GetBit(blob, y, x, width) == PackedBit(blob[y * stride..y * stride + stride], n)
  {
    hide GetBit, Stride, Bit, And, Pow2, Access;
    var stride, n := Stride(width), 8 * Stride(width) - width + x;
    StrideRoundsUp(width);
    RowsFit(y, height, stride);
    PositionInRow(stride, width - x - 1);
    AccessInRange(y, x, width, height);
    GetBitIsBit(blob, y, x, width);
    assert blob[y * stride..y * stride + stride][n / 8] == blob[y * stride + n / 8];
  }

  lemma RowsFit(y: nat, height: nat, stride: nat)
    requires y < height
    ensures 0 <= y * stride && y * stride + stride <= stride * height
  {
    var rest := height - y - 1;
    assert height == y + 1 + rest;
    assert stride * height == stride * y + stride + stride * rest;
    assert stride * rest >= 0 && stride * y >= 0;
  }

  /** Counting k pixels from the right end of a row is counting 8 * stride - 1 - k from the left. */
  lemma PositionInRow(stride: nat, k: nat)
    requires k < 8 * stride
    ensures (8 * stride - 1 - k) / 8 == stride - k / 8 - 1
    ensures 7 - (8 * stride - 1 - k) % 8 == k % 8
  {}

  lemma GetBitIsBit(blob: seq<byte>, y: nat, x: nat, width: nat)
    requires x < width && width + 7 < 0x1_0000_0000 && Access(y, x, width) < |blob|
    ensures GetBit(blob, y, x, width) == Bit(blob[Access(y, x, width)], BlobBit(x, width))
  {
    AndPow2(blob[Access(y, x, width)], BlobBit(x, width));
  }

  lemma FirstRow(blob: seq<byte>, x: nat, width: nat)
    requires x < width && width + 7 < 0x1_0000_0000 && |blob| == Stride(width)
    ensures var n := 8 * Stride(width) - width + x;
      && 0 <= n && n / 8 < |blob| && Access(0, x, width) < |blob|
      && GetBit(blob, 0, x, width) == PackedBit(blob, n)
  {
    StrideRoundsUp(width);
    hide GetBit, Stride, PackedBit, Access;
    assert Stride(width) * 1 == Stride(width);
    RowsAreRightAligned(blob, 0, x, width, 1);
    assert blob[0..|blob|] == blob;
  }

  /** PBM packs rows to the left, so the two agree for every bitmap exactly if the width is a multiple of eight. */
  lemma PbmAgrees(width: nat)
    requires 0 < width && width + 7 < 0x1_0000_0000
    ensures (forall blob: seq<byte>, x: nat :: |blob| == Stride(width) && x < width ==> PbmAgreesAt(blob, x, width))
            <==> width % 8 == 0
  {
    hide GetBit, PackedBit, Access;
    var stride := Stride(width);
    if width % 8 == 0 {
      forall blob: seq<byte>, x: nat | |blob| == stride && x < width
        ensures PbmAgreesAt(blob, x, width)
      {
        FirstRow(blob, x, width);
      }
    } else {
      PbmDiffers(width);
    }
  }

  ghost predicate PbmAgreesAt(blob: seq<byte>, x: nat, width: nat)
    requires x < width && width + 7 < 0x1_0000_0000 && |blob| == Stride(width)
  {
    Access(0, x, width) < |blob| && GetBit(blob, 0, x, width) == PackedBit(blob, x)
  }

  /** A blob with only its first bit set shows that the first pixel is not at the first position. */
  lemma PbmDiffers(width: nat)
    requires width % 8 != 0 && width + 7 < 0x1_0000_0000
    ensures exists blob: seq<byte> :: |blob| == Stride(width) && !PbmAgreesAt(blob, 0, width)
  {
    hide GetBit, Access;
    var n := 8 * Stride(width) - width;
    var blob: seq<byte> := seq(Stride(width), i => if i == 0 then 128 else 0);
    FirstRow(blob, 0, width);
    assert 0 < n < 8;
    TopBit(7 - n);
    TopBit(7);
    assert !PbmAgreesAt(blob, 0, width);
  }

  lemma TopBit(k: nat)
    requires k < 8
    ensures Bit(128, k) == (k == 7)
  {
    assert Pow2(7) == 2 * Pow2(6) == 4 * Pow2(5) == 8 * Pow2(4);
    assert Pow2(4) == 2 * Pow2(3) == 4 * Pow2(2) == 8 * Pow2(1);
    BitPow2(7, k);
  }

  // ----- Commands -----

  datatype Command =
    | Set(prio: nat, offx: int, offy: int, width: int, height: int, blob: seq<byte>)
    | Clear(prio: nat, offx: int, offy: int, width: int, height: int)

  /** The pixel is in the rectangle of the command. */
  predicate Covers(cmd: Command, row: int, col: int) {
    0 <= row - cmd.offy < cmd.height && 0 <= col - cmd.offx < cmd.width
  }

  predicate OnDisplay(row: int, col: int) {
    0 <= row < HEIGHT_NET && 0 <= col < WIDTH_NET
  }

  /** The byte that holds the pixel is in the blob. */
  predicate InBlob(cmd: Command, row: int, col: int)
    requires cmd.Set? && Covers(cmd, row, col)
  {
    cmd.width + 7 < 0x1_0000_0000 && Access(row - cmd.offy, col - cmd.offx, cmd.width) < |cmd.blob|
  }

  predicate FitsInt32(n: int) {
    -0x8000_0000 <= n < 0x8000_0000
  }

  /** The bounds of the loops are computed without overflow. */
  predicate Computable(offx: int, offy: int, width: int, height: int) {
    && FitsInt32(offx) && FitsInt32(offy) && FitsInt32(width) && FitsInt32(height)
    && FitsInt32(WIDTH_NET - offx) && FitsInt32(HEIGHT_NET - offy)
  }

  /** What C asks of a command: no overflow of signed arithmetic, and no access outside of the blob. */
  ghost predicate Proper(cmd: Command) {
    && cmd.prio < LAYERS && Computable(cmd.offx, cmd.offy, cmd.width, cmd.height)
    && (cmd.Set? ==> forall row, col :: OnDisplay(row, col) && Covers(cmd, row, col) ==> InBlob(cmd, row, col))
  }

  /** The colour that the blob has for the pixel. */
  predicate ShowsSet(cmd: Command, row: int, col: int)
    requires cmd.Set? && Covers(cmd, row, col)
  {
    InBlob(cmd, row, col) && GetBit(cmd.blob, row - cmd.offy, col - cmd.offx, cmd.width)
  }

  /**
   * A set shows its blob: pixel (row, col) of the display has the colour of the bit that is
   * its place in the blob, counted from the most significant bit of the row's first byte.
   * Rows are padded at their left end.
   */
  lemma SetShowsBlob(cmd: Command, row: int, col: int) returns (at: nat, n: nat)
    requires cmd.Set? && Proper(cmd) && 0 <= row < 16 && 0 <= col < 112
    requires cmd.offy <= row < cmd.offy + cmd.height && cmd.offx <= col < cmd.offx + cmd.width
    ensures n == 8 * ((cmd.width + 7) / 8) - cmd.width + (col - cmd.offx)
    ensures at == ((row - cmd.offy) * ((cmd.width + 7) / 8) + n / 8) % 0x1_0000_0000 < |cmd.blob|
    ensures Covers(cmd, row, col) && ShowsSet(cmd, row, col) == Bit(cmd.blob[at], 7 - n % 8)
  {
    hide GetBit, Bit, And, Pow2, Proper, Access;
    PixelInBlob(cmd, row, col);
    var y, x, width := row - cmd.offy, col - cmd.offx, cmd.width;
    at, n := Access(y, x, width), 8 * ((width + 7) / 8) - width + x;
    PlaceInBlob(y, x, width);
    GetBitIsBit(cmd.blob, y, x, width);
  }

  lemma PixelInBlob(cmd: Command, row: int, col: int)
    requires cmd.Set? && Proper(cmd) && OnDisplay(row, col) && Covers(cmd, row, col)
    ensures InBlob(cmd, row, col)
  {}

  lemma PlaceInBlob(y: nat, x: nat, width: nat)
    requires x < width && width + 7 < 0x1_0000_0000
    ensures var stride, n := (width + 7) / 8, 8 * ((width + 7) / 8) - width + x;
      && 0 <= n && Access(y, x, width) == (y * stride + n / 8) % 0x1_0000_0000
      && BlobBit(x, width) == 7 - n % 8
  {
    StrideRoundsUp(width);
    PositionInRow((width + 7) / 8, width - x - 1);
  }

  function SetPixel(p: Pixel, prio: nat, on: bool): (q: Pixel)
    requires p.Valid() && prio < LAYERS
    ensures q.Valid()
  {
    Pow2Monotone(prio, LAYERS);
    OrWidth(p.mask, Pow2(prio), LAYERS);
    OrWidth(p.bits, Pow2(prio), LAYERS);
    AndWidth(p.bits, Not(Pow2(prio), LAYERS));
    Pixel(Or(p.mask, Pow2(prio)),
          if on then Or(p.bits, Pow2(prio)) else And(p.bits, Not(Pow2(prio), LAYERS)))
  }

  function ClearPixel(p: Pixel, prio: nat): (q: Pixel)
    requires p.Valid() && prio < LAYERS
    ensures q.Valid()
  {
    Pow2Monotone(prio, LAYERS);
    AndWidth(p.mask, Not(Pow2(prio), LAYERS));
    p.(mask := And(p.mask, Not(Pow2(prio), LAYERS)))
  }

  /** What a command makes of the pixel p at the given place. */
  ghost function Paint(cmd: Command, p: Pixel, row: int, col: int): (q: Pixel)
    requires Proper(cmd) && p.Valid()
    ensures q.Valid()
  {
    if !Covers(cmd, row, col) then p
    else if cmd.Set? then SetPixel(p, cmd.prio, ShowsSet(cmd, row, col))
    else ClearPixel(p, cmd.prio)
  }

  /** Only the layer of the command changes: its mask bit, and on a set also its colour. */
  lemma PaintBits(cmd: Command, p: Pixel, row: int, col: int, k: nat)
    requires Proper(cmd) && p.Valid() && k < LAYERS
    ensures var q := Paint(cmd, p, row, col);
      if Covers(cmd, row, col) && k == cmd.prio then
        && Bit(q.mask, k) == cmd.Set?
        && Bit(q.bits, k) == (if cmd.Set? then ShowsSet(cmd, row, col) else Bit(p.bits, k))
      else
        Bit(q.mask, k) == Bit(p.mask, k) && Bit(q.bits, k) == Bit(p.bits, k)
  {
    var m := Pow2(cmd.prio);
    Pow2Monotone(cmd.prio, LAYERS);
    BitPow2(cmd.prio, k);
    BitNot(m, LAYERS, k);
    BitOr(p.mask, m, k);
    BitOr(p.bits, m, k);
    BitAnd(p.mask, Not(m, LAYERS), k);
    BitAnd(p.bits, Not(m, LAYERS), k);
  }

  lemma SameBits(p: Pixel, q: Pixel)
    requires p.Valid() && q.Valid()
    requires forall k: nat :: k < LAYERS ==> Bit(p.mask, k) == Bit(q.mask, k) && Bit(p.bits, k) == Bit(q.bits, k)
    ensures p == q
  {
    forall k: nat
      ensures Bit(p.mask, k) == Bit(q.mask, k) && Bit(p.bits, k) == Bit(q.bits, k)
    {
      if k >= LAYERS {
        BitAboveWidth(p.mask, LAYERS, k);
        BitAboveWidth(q.mask, LAYERS, k);
        BitAboveWidth(p.bits, LAYERS, k);
        BitAboveWidth(q.bits, LAYERS, k);
      }
    }
    BitsDetermine(p.mask, q.mask);
    BitsDetermine(p.bits, q.bits);
  }

  /** Commands at different priorities commute. */
  lemma PaintCommutes(a: Command, b: Command, p: Pixel, row: int, col: int)
    requires Proper(a) && Proper(b) && a.prio != b.prio && p.Valid()
    ensures Paint(a, Paint(b, p, row, col), row, col) == Paint(b, Paint(a, p, row, col), row, col)
  {
    hide Paint, ShowsSet, Pow2;
    var pa, pb := Paint(a, p, row, col), Paint(b, p, row, col);
    forall k: nat | k < LAYERS
      ensures Bit(Paint(a, pb, row, col).mask, k) == Bit(Paint(b, pa, row, col).mask, k)
      ensures Bit(Paint(a, pb, row, col).bits, k) == Bit(Paint(b, pa, row, col).bits, k)
    {
      PaintBits(a, p, row, col, k);
      PaintBits(b, p, row, col, k);
      PaintBits(a, pb, row, col, k);
      PaintBits(b, pa, row, col, k);
    }
    SameBits(Paint(a, pb, row, col), Paint(b, pa, row, col));
  }
}
