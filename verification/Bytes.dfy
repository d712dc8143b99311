// Bytes, machine words, and the byte strings that stand for them.

module Bytes {

  type byte = x: int | 0 <= x < 0x100
  type word32 = x: int | 0 <= x < 0x1_0000_0000
  type word64 = x: int | 0 <= x < 0x1_0000_0000_0000_0000

  datatype Option<+T> = None | Some(value: T)

  /** The int32_t that has the same bits as w. */
  function Signed32(w: word32): int {
    if w < 0x8000_0000 then w else w - 0x1_0000_0000
  }

  function Pow256(n: nat): (p: nat)
    ensures p >= 1
  {
    if n == 0 then 1 else 0x100 * Pow256(n - 1)
  }

  /** The n low bytes of w, most significant first. */
  function Digits(w: nat, n: nat): (s: seq<byte>)
    ensures |s| == n
  {
    if n == 0 then [] else Digits(w / 0x100, n - 1) + [w % 0x100]
  }

  /** The number that s stands for, most significant byte first. */
  function Value(s: seq<byte>): (w: nat)
    ensures w < Pow256(|s|)
  {
    if s == [] then 0 else Value(s[..|s| - 1]) * 0x100 + s[|s| - 1]
  }

  lemma {:induction false} DigitsRoundTrip(w: nat, n: nat)
    requires w < Pow256(n)
    ensures Value(Digits(w, n)) == w
  {
    if n > 0 {
      DigitsRoundTrip(w / 0x100, n - 1);
      assert Digits(w, n)[..n - 1] == Digits(w / 0x100, n - 1);
    }
  }

  lemma WordSizes()
    ensures Pow256(4) == 0x1_0000_0000 && Pow256(8) == 0x1_0000_0000_0000_0000
  {
    assert Pow256(2) == 0x100 * Pow256(1) == 0x100 * 0x100;
    assert Pow256(4) == 0x100 * Pow256(3) == 0x100 * (0x100 * Pow256(2));
    assert Pow256(6) == 0x100 * Pow256(5) == 0x100 * (0x100 * Pow256(4));
    assert Pow256(8) == 0x100 * Pow256(7) == 0x100 * (0x100 * Pow256(6));
  }

  /** htobe32 */
  function Be32(w: word32): (s: seq<byte>)
    ensures |s| == 4
  {
    Digits(w, 4)
  }

  /** be32toh */
  function FromBe32(s: seq<byte>): word32
    requires |s| == 4
  {
    WordSizes();
    Value(s)
  }

  /** htobe64 */
  function Be64(w: word64): (s: seq<byte>)
    ensures |s| == 8
  {
    Digits(w, 8)
  }

  /** be64toh */
  function FromBe64(s: seq<byte>): word64
    requires |s| == 8
  {
    WordSizes();
    Value(s)
  }

  /** Network byte order: the most significant byte comes first. */
  lemma Be32Bytes(w: word32)
    ensures Be32(w) == [w / 0x100_0000, w / 0x1_0000 % 0x100, w / 0x100 % 0x100, w % 0x100]
  {
    hide Digits;
    DigitsStep(w, 3);
    DigitsStep(w / 0x100, 2);
    DigitsStep(w / 0x1_0000, 1);
    DigitsStep(w / 0x100_0000, 0);
  }

  lemma DigitsStep(w: nat, n: nat)
    ensures Digits(w, n + 1) == Digits(w / 0x100, n) + [w % 0x100] && Digits(w, 0) == []
  {}

  lemma Be64Bytes(v: word64)
    ensures Be64(v) == [v / 0x100_0000_0000_0000, v / 0x1_0000_0000_0000 % 0x100, v / 0x100_0000_0000 % 0x100,
                        v / 0x1_0000_0000 % 0x100, v / 0x100_0000 % 0x100, v / 0x1_0000 % 0x100, v / 0x100 % 0x100,
                        v % 0x100]
  {
    hide Digits;
    DigitsStep(v, 7);
    DigitsStep(v / 0x100, 6);
    DigitsStep(v / 0x1_0000, 5);
    DigitsStep(v / 0x100_0000, 4);
    DigitsStep(v / 0x1_0000_0000, 3);
    DigitsStep(v / 0x100_0000_0000, 2);
    DigitsStep(v / 0x1_0000_0000_0000, 1);
    DigitsStep(v / 0x100_0000_0000_0000, 0);
  }

  lemma FromBe32Is(s: seq<byte>)
    requires |s| == 4
    ensures FromBe32(s) as int == s[0] as int * 0x100_0000 + s[1] as int * 0x1_0000 + s[2] as int * 0x100 + s[3] as int
  {
    var s3, s2, s1 := s[..3], s[..3][..2], s[..3][..2][..1];
    assert Value(s1) == s[0];
    assert Value(s2) == Value(s1) * 0x100 + s[1];
    assert Value(s3) == Value(s2) * 0x100 + s[2];
  }

  lemma Be32RoundTrip(w: word32)
    ensures FromBe32(Be32(w)) == w
  {
    WordSizes();
    DigitsRoundTrip(w, 4);
  }

  lemma Be64RoundTrip(w: word64)
    ensures FromBe64(Be64(w)) == w
  {
    WordSizes();
    DigitsRoundTrip(w, 8);
  }

  /** The memory after storing the bytes bs at index at. */
  function Put(mem: seq<byte>, at: nat, bs: seq<byte>): (mem': seq<byte>)
    requires at + |bs| <= |mem|
    ensures |mem'| == |mem|
    ensures forall i :: 0 <= i < |mem| ==> mem'[i] == if at <= i < at + |bs| then bs[i - at] else mem[i]
  {
    mem[..at] + bs + mem[at + |bs|..]
  }

  lemma SliceOfSlice<T>(s: seq<T>, from: nat, to: nat, i: nat, j: nat)
    requires from <= to <= |s| && i <= j <= to - from
    ensures s[from..to][i..j] == s[from + i..from + j]
  {
    var a, b := s[from..to][i..j], s[from + i..from + j];
    assert forall k :: 0 <= k < |a| ==> a[k] == s[from..to][i + k] == b[k];
  }
}
