// monobus.c: which bytes of a blob are read, and when the comparison of its length in
// _priority covers all of them.

module Accesses {
  import opened Bytes
  import opened Compositor
  import opened Canvas
  import opened Priority

  /** The loops of _set_pixels run over these rows and columns of the bitmap. */
  function FirstRow(a: Area): int {
    if a.offy < 0 then -a.offy else 0
  }

  function LastRow(a: Area): int {
    Min(a.height, HEIGHT_NET - a.offy) - 1
  }

  function FirstCol(a: Area): int {
    if a.offx < 0 then -a.offx else 0
  }

  function LastCol(a: Area): int {
    Min(a.width, WIDTH_NET - a.offx) - 1
  }

  predicate Draws(a: Area) {
    FirstRow(a) <= LastRow(a) && FirstCol(a) <= LastCol(a)
  }

  predicate ReadsPixel(a: Area, y: int, x: int) {
    FirstRow(a) <= y <= LastRow(a) && FirstCol(a) <= x <= LastCol(a)
  }

  /** These are the pixels of the bitmap that are on the display. */
  lemma ReadsAreVisible(prio: nat, a: Area, blob: seq<byte>, row: int, col: int)
    ensures OnDisplay(row, col) && Covers(SetOf(prio, a, blob), row, col)
            <==> ReadsPixel(a, row - a.offy, col - a.offx)
  {}

  ghost predicate Acceptable(a: Area) {
    Computable(a.offx, a.offy, a.width, a.height)
  }

  /** No accepted blob is too short for what the loops read. */
  ghost predicate Covered(prio: nat, a: Area) {
    forall blob: seq<byte> :: |blob| >= TotalLength(a.width, a.height) ==> Proper(SetOf(prio, a, blob))
  }

  /** Both ends of every row that is read are within the length that was compared. */
  ghost predicate EdgesInside(a: Area)
    requires Acceptable(a)
  {
    Draws(a) ==> forall y :: FirstRow(a) <= y <= LastRow(a) ==> RowInside(a, y)
  }

  predicate RowInside(a: Area, y: int)
    requires Acceptable(a) && Draws(a) && FirstRow(a) <= y <= LastRow(a)
  {
    && Access(y, FirstCol(a), a.width) < TotalLength(a.width, a.height)
    && Access(y, LastCol(a), a.width) < TotalLength(a.width, a.height)
  }

  /**
   * For all offsets and sizes without overflow of the loop bounds: the comparison covers
   * every access to every accepted blob exactly if both ends of every row on the display
   * are within the compared length. There are at most 16 such rows.
   */
  lemma LengthTestCovers(prio: nat, a: Area)
    requires prio < LAYERS && Acceptable(a)
    ensures Covered(prio, a) <==> EdgesInside(a)
  {
    hide Proper, TotalLength, Access, ReadsPixel, RowInside, InBlob, Computable;
    if EdgesInside(a) {
      forall blob: seq<byte> | |blob| >= TotalLength(a.width, a.height)
        ensures Proper(SetOf(prio, a, blob))
      {
        EdgesSuffice(prio, a, blob);
      }
    }
    if Covered(prio, a) && Draws(a) {
      forall y | FirstRow(a) <= y <= LastRow(a)
        ensures RowInside(a, y)
      {
        ShortestBlob(prio, a, y);
      }
    }
  }

  /** The shortest blob that is accepted. */
  lemma ShortestBlob(prio: nat, a: Area, y: int)
    requires prio < LAYERS && Acceptable(a) && Covered(prio, a)
    requires Draws(a) && FirstRow(a) <= y <= LastRow(a)
    ensures RowInside(a, y)
  {
    hide TotalLength, Access, Computable;
    var n := TotalLength(a.width, a.height);
    var blob: seq<byte> := seq(if n < 0 then 0 else n, _ => 0);
    var cmd := SetOf(prio, a, blob);
    assert Proper(cmd);
    ReadsAreVisible(prio, a, blob, a.offy + y, a.offx + FirstCol(a));
    ReadsAreVisible(prio, a, blob, a.offy + y, a.offx + LastCol(a));
    assert InBlob(cmd, a.offy + y, a.offx + FirstCol(a)) && InBlob(cmd, a.offy + y, a.offx + LastCol(a));
  }

  lemma EdgesSuffice(prio: nat, a: Area, blob: seq<byte>)
    requires prio < LAYERS && Acceptable(a) && EdgesInside(a) && |blob| >= TotalLength(a.width, a.height)
    ensures Proper(SetOf(prio, a, blob))
  {
    hide TotalLength, Access;
    var cmd := SetOf(prio, a, blob);
    forall row, col | OnDisplay(row, col) && Covers(cmd, row, col)
      ensures InBlob(cmd, row, col)
    {
      ReadsAreVisible(prio, a, blob, row, col);
      var y, x := row - a.offy, col - a.offx;
      assert RowInside(a, y);
      SignedLength(a.width, a.height);
      BetweenEdges(y, FirstCol(a), x, LastCol(a), a.width);
    }
  }

  lemma SignedLength(width: int, height: int)
    ensures TotalLength(width, height) < 0x8000_0000
  {}

  /** Within a row the byte index grows, and if both its ends are small it does not wrap around in between. */
  lemma BetweenEdges(y: nat, first: nat, x: nat, last: nat, width: nat)
    requires first <= x <= last < width < 0x8000_0000
    requires Access(y, first, width) < 0x8000_0000 && Access(y, last, width) < 0x8000_0000
    ensures Access(y, x, width) <= Access(y, last, width)
  {
    ByteGrows(y, first, x, width);
    ByteGrows(y, x, last, width);
    var b := BlobByte(y, first, width);
    BlobByteInRange(y, first, width, y + 1);
    hide BlobByte;
    NoWrapBetween(b, BlobByte(y, x, width), BlobByte(y, last, width));
  }

  lemma ByteGrows(y: nat, x: nat, x': nat, width: nat)
    requires x <= x' < width < 0x8000_0000
    ensures BlobByte(y, x, width) <= BlobByte(y, x', width) < BlobByte(y, x, width) + 0x1000_0000
  {
    assert (width - x' - 1) / 8 <= (width - x - 1) / 8 < (width - x' - 1) / 8 + 0x1000_0000;
  }

  lemma NoWrapBetween(b: nat, c: nat, d: nat)
    requires b <= c <= d < b + 0x2000_0000
    requires b % 0x1_0000_0000 < 0x8000_0000 && d % 0x1_0000_0000 < 0x8000_0000
    ensures c % 0x1_0000_0000 <= d % 0x1_0000_0000
  {
    var q := b / 0x1_0000_0000 * 0x1_0000_0000;
    assert q <= b <= c <= d < q + 0x1_0000_0000;
    assert c % 0x1_0000_0000 == c - q && d % 0x1_0000_0000 == d - q;
  }

  /** As long as the rows on the display are within 2^32 bytes, only the last access matters. */
  lemma LengthTestCoversLast(prio: nat, a: Area)
    requires prio < LAYERS && Acceptable(a)
    requires Draws(a) ==> LastRow(a) * Stride(a.width) + Stride(a.width) <= 0x1_0000_0000
    ensures Covered(prio, a) <==>
            (Draws(a) ==> BlobByte(LastRow(a), LastCol(a), a.width) < TotalLength(a.width, a.height))
  {
    hide Covered, TotalLength, Access, BlobByte, Stride;
    LengthTestCovers(prio, a);
    if Draws(a) {
      forall y | FirstRow(a) <= y <= LastRow(a)
        ensures Access(y, FirstCol(a), a.width) <= BlobByte(LastRow(a), LastCol(a), a.width)
        ensures Access(y, LastCol(a), a.width) <= BlobByte(LastRow(a), LastCol(a), a.width)
      {
        LastIsGreatest(y, FirstCol(a), LastRow(a), LastCol(a), a.width);
        LastIsGreatest(y, LastCol(a), LastRow(a), LastCol(a), a.width);
      }
      LastIsGreatest(LastRow(a), LastCol(a), LastRow(a), LastCol(a), a.width);
      if BlobByte(LastRow(a), LastCol(a), a.width) < TotalLength(a.width, a.height) {
        forall y | FirstRow(a) <= y <= LastRow(a)
          ensures RowInside(a, y)
        {}
      } else {
        assert !RowInside(a, LastRow(a));
      }
    }
  }

  lemma LastIsGreatest(y: nat, x: nat, y': nat, x': nat, width: nat)
    requires y <= y' && x <= x' < width < 0x8000_0000
    requires y' * Stride(width) + Stride(width) <= 0x1_0000_0000
    ensures Access(y, x, width) <= BlobByte(y', x', width)
    ensures Access(y', x', width) == BlobByte(y', x', width)
  {
    var stride := Stride(width);
    BlobByteInRange(y, x, width, y + 1);
    BlobByteInRange(y', x', width, y' + 1);
    ByteGrows(y, x, x', width);
    RowsGrow(y, y', stride);
    hide BlobByte, Stride;
  }

  lemma RowsGrow(y: nat, y': nat, stride: nat)
    requires y <= y'
    ensures y == y' || y * stride + stride <= y' * stride
  {
    if y < y' {
      RowsFit(y, y', stride);
    }
  }

  /** That is so whenever the bitmap starts on the display. */
  lemma RowsOfDisplay(a: Area)
    requires Acceptable(a) && Draws(a) && a.offy >= 0
    ensures LastRow(a) * Stride(a.width) + Stride(a.width) <= 0x1_0000_0000
  {
    var y, stride := LastRow(a), Stride(a.width);
    assert y <= 15 && stride <= 0x1000_0000;
    RowsGrow(y, 15, stride);
  }

  // ----- Inputs on either side -----

  /** Even an empty blob is accepted for this bitmap, of 2^32 bytes, and the first pixel is read. */
  lemma ReadOutside()
    ensures var a, blob := Area(4, 0, 0, 0x4000_0000, 32), [];
      var cmd := SetOf(0, a, blob);
      && Acceptable(a) && |blob| >= TotalLength(a.width, a.height)
      && OnDisplay(0, 0) && Covers(cmd, 0, 0) && !InBlob(cmd, 0, 0)
  {}

  /** This one, of more than 2^32 bytes, is covered: only its first rows are on the display. */
  lemma OverflowWithoutHarm()
    ensures var a := Area(4, 0, 0, 24, 0x5555_5569);
      Acceptable(a) && !InRange(a) && Covered(0, a)
  {
    var a := Area(4, 0, 0, 24, 0x5555_5569);
    assert Stride(24) == 3 && TotalLength(24, 0x5555_5569) == 59;
    assert LastRow(a) == 15 && LastCol(a) == 23 && BlobByte(15, 23, 24) == 47;
    LengthTestCoversLast(0, a);
  }

  /** Offsets for which the upper bound of the loop overflows an int32_t; C does not define what is drawn then. */
  lemma BoundOverflows()
    ensures var a := Area(4, 0, -0x7FFF_FFFB, 8, 0x7FFF_FFFF);
      && FitsInt32(a.offx) && FitsInt32(a.offy) && FitsInt32(a.width) && FitsInt32(a.height)
      && !Acceptable(a) && Covers(Clear(0, a.offx, a.offy, a.width, a.height), 0, 0)
  {}
}
