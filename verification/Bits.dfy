// Bitwise operators of C on unsigned words, modelled on natural numbers.
//
// A word of width w is a nat below Pow2(w). And, Or and Xor work on any width;
// Not takes the width, since ~x in C depends on the type of x.

module Bits {

  function Pow2(k: nat): (p: nat)
    ensures p >= 1
  {
    if k == 0 then 1 else 2 * Pow2(k - 1)
  }

  /** Bit k of n, counted from the least significant one. */
  predicate Bit(n: nat, k: nat) {
    if k == 0 then n % 2 == 1 else Bit(n / 2, k - 1)
  }

  function And(a: nat, b: nat): nat {
    if a == 0 || b == 0 then 0
    else (if a % 2 == 1 && b % 2 == 1 then 1 else 0) + 2 * And(a / 2, b / 2)
  }

  function Or(a: nat, b: nat): nat
    decreases a + b
  {
    if a == 0 then b else if b == 0 then a
    else (if a % 2 == 1 || b % 2 == 1 then 1 else 0) + 2 * Or(a / 2, b / 2)
  }

  function Xor(a: nat, b: nat): nat
    decreases a + b
  {
    if a == 0 then b else if b == 0 then a
    else (if a % 2 != b % 2 then 1 else 0) + 2 * Xor(a / 2, b / 2)
  }

  /** ~n for a word of the given width. */
  function Not(n: nat, width: nat): nat
    requires n < Pow2(width)
  {
    Pow2(width) - 1 - n
  }

  /** The bits of a byte are its digits in base two. */
  lemma BitsOfByte(n: nat)
    ensures Bit(n, 0) == (n % 2 == 1) && Bit(n, 1) == (n / 2 % 2 == 1)
    ensures Bit(n, 2) == (n / 4 % 2 == 1) && Bit(n, 3) == (n / 8 % 2 == 1)
    ensures Bit(n, 4) == (n / 16 % 2 == 1) && Bit(n, 5) == (n / 32 % 2 == 1)
    ensures Bit(n, 6) == (n / 64 % 2 == 1) && Bit(n, 7) == (n / 128 % 2 == 1)
  {
    BitsOfNibble(n);
    BitsOfNibble(n / 16);
    HigherBit(n, 0);
    HigherBit(n, 1);
    HigherBit(n, 2);
    HigherBit(n, 3);
    hide Bit;
    assert n / 16 / 2 == n / 32 && n / 16 / 4 == n / 64 && n / 16 / 8 == n / 128;
  }

  lemma BitsOfNibble(n: nat)
    ensures Bit(n, 0) == (n % 2 == 1) && Bit(n, 1) == (n / 2 % 2 == 1)
    ensures Bit(n, 2) == (n / 4 % 2 == 1) && Bit(n, 3) == (n / 8 % 2 == 1)
  {
    assert n / 2 / 2 == n / 4 && n / 4 / 2 == n / 8;
    assert Bit(n, 2) == Bit(n / 2, 1) == Bit(n / 4, 0);
    assert Bit(n, 3) == Bit(n / 2, 2) == Bit(n / 4, 1) == Bit(n / 8, 0);
  }

  lemma HigherBit(n: nat, k: nat)
    ensures Bit(n, k + 4) == Bit(n / 16, k)
  {
    assert Bit(n, k + 4) == Bit(n / 2, k + 3) == Bit(n / 2 / 2, k + 2) == Bit(n / 2 / 2 / 2, k + 1);
    assert n / 2 / 2 / 2 / 2 == n / 16;
  }

  lemma SmallPowers()
    ensures Pow2(0) == 1 && Pow2(1) == 2 && Pow2(2) == 4 && Pow2(3) == 8
    ensures Pow2(4) == 16 && Pow2(5) == 32 && Pow2(6) == 64 && Pow2(7) == 128
  {
    assert Pow2(3) == 2 * Pow2(2) == 4 * Pow2(1);
    assert Pow2(5) == 2 * Pow2(4) == 4 * Pow2(3);
    assert Pow2(7) == 2 * Pow2(6) == 4 * Pow2(5);
  }

  lemma BitOfZero(k: nat)
    ensures !Bit(0, k)
  {}

  lemma {:induction false} BitAnd(a: nat, b: nat, k: nat)
    ensures Bit(And(a, b), k) == (Bit(a, k) && Bit(b, k))
  {
    if a == 0 || b == 0 {
      BitOfZero(k);
    } else if k > 0 {
      BitAnd(a / 2, b / 2, k - 1);
    }
  }

  lemma {:induction false} BitOr(a: nat, b: nat, k: nat)
    ensures Bit(Or(a, b), k) == (Bit(a, k) || Bit(b, k))
  {
    if a == 0 || b == 0 {
      BitOfZero(k);
    } else if k > 0 {
      BitOr(a / 2, b / 2, k - 1);
    }
  }

  lemma {:induction false} BitXor(a: nat, b: nat, k: nat)
    ensures Bit(Xor(a, b), k) == (Bit(a, k) != Bit(b, k))
  {
    if a == 0 || b == 0 {
      BitOfZero(k);
    } else if k > 0 {
      BitXor(a / 2, b / 2, k - 1);
    }
  }

  lemma {:induction false} BitNot(n: nat, width: nat, k: nat)
    requires n < Pow2(width)
    ensures Bit(Not(n, width), k) == (k < width && !Bit(n, k))
  {
    if width == 0 {
      BitOfZero(k);
    } else {
      NotHalves(n, width);
      hide Pow2, Not;
      if k > 0 {
        BitNot(n / 2, width - 1, k - 1);
      }
    }
  }

  lemma NotHalves(n: nat, width: nat)
    requires width > 0 && n < Pow2(width)
    ensures n / 2 < Pow2(width - 1)
    ensures Not(n, width) / 2 == Not(n / 2, width - 1) && Not(n, width) % 2 == 1 - n % 2
  {
    var p := Pow2(width - 1);
    assert Not(n, width) == 2 * (p - 1 - n / 2) + (1 - n % 2);
  }

  lemma {:induction false} BitPow2(p: nat, k: nat)
    ensures Bit(Pow2(p), k) == (p == k)
  {
    if p > 0 && k > 0 {
      BitPow2(p - 1, k - 1);
    } else if k > 0 {
      BitOfZero(k - 1);
    }
  }

  lemma {:induction false} BitAboveWidth(n: nat, width: nat, k: nat)
    requires n < Pow2(width) && width <= k
    ensures !Bit(n, k)
  {
    if width == 0 {
      BitOfZero(k);
    } else {
      BitAboveWidth(n / 2, width - 1, k - 1);
    }
  }

  /** Two words with the same bits are the same word. */
  lemma {:induction false} BitsDetermine(a: nat, b: nat)
    requires forall k: nat :: Bit(a, k) == Bit(b, k)
    ensures a == b
    decreases a + b
  {
    if a != 0 || b != 0 {
      forall k: nat
        ensures Bit(a / 2, k) == Bit(b / 2, k)
      {
        assert Bit(a, k + 1) == Bit(b, k + 1);
      }
      assert Bit(a, 0) == Bit(b, 0);
      BitsDetermine(a / 2, b / 2);
    }
  }

  lemma {:induction false} OrWidth(a: nat, b: nat, width: nat)
    requires a < Pow2(width) && b < Pow2(width)
    ensures Or(a, b) < Pow2(width)
  {
    if a != 0 && b != 0 {
      OrWidth(a / 2, b / 2, width - 1);
    }
  }

  lemma {:induction false} AndWidth(a: nat, b: nat)
    ensures And(a, b) <= a && And(a, b) <= b
  {
    if a != 0 && b != 0 {
      AndWidth(a / 2, b / 2);
    }
  }

  lemma {:induction false} XorWidth(a: nat, b: nat, width: nat)
    requires a < Pow2(width) && b < Pow2(width)
    ensures Xor(a, b) < Pow2(width)
  {
    if a != 0 && b != 0 {
      XorWidth(a / 2, b / 2, width - 1);
    }
  }

  lemma XorAssociative(a: nat, b: nat, c: nat)
    ensures Xor(Xor(a, b), c) == Xor(a, Xor(b, c))
  {
    forall k: nat
      ensures Bit(Xor(Xor(a, b), c), k) == Bit(Xor(a, Xor(b, c)), k)
    {
      BitXor(Xor(a, b), c, k);
      BitXor(a, b, k);
      BitXor(a, Xor(b, c), k);
      BitXor(b, c, k);
    }
    BitsDetermine(Xor(Xor(a, b), c), Xor(a, Xor(b, c)));
  }

  /** Masking an index below twice a power of two wraps it around once. */
  lemma {:induction false} AndMask(x: nat, k: nat)
    requires x < 2 * Pow2(k)
    ensures And(x, Pow2(k) - 1) == if x < Pow2(k) then x else x - Pow2(k)
  {
    if k > 0 && x > 0 {
      var p := Pow2(k - 1);
      assert Pow2(k) == 2 * p;
      AndMask(x / 2, k - 1);
      AndOdd(x, p - 1);
      hide And, Pow2;
    }
  }

  lemma AndOdd(x: nat, b: nat)
    requires x > 0
    ensures And(x, 2 * b + 1) == x % 2 + 2 * And(x / 2, b)
  {}

  /** ~x is x with every bit flipped. */
  lemma {:induction false} XorAllOnes(n: nat, width: nat)
    requires n < Pow2(width)
    ensures Xor(n, Pow2(width) - 1) == Not(n, width)
  {
    if width == 0 {
    } else if n == 0 {
    } else {
      assert (Pow2(width) - 1) / 2 == Pow2(width - 1) - 1;
      XorAllOnes(n / 2, width - 1);
    }
  }

  /** A word has bit k set exactly if masking it with 1 << k leaves something. */
  lemma AndPow2(n: nat, k: nat)
    ensures And(n, Pow2(k)) != 0 <==> Bit(n, k)
  {
    BitAnd(n, Pow2(k), k);
    BitPow2(k, k);
    BitOfZero(k);
    if !Bit(n, k) {
      forall j: nat
        ensures Bit(And(n, Pow2(k)), j) == Bit(0, j)
      {
        BitAnd(n, Pow2(k), j);
        BitPow2(k, j);
        BitOfZero(j);
      }
      BitsDetermine(And(n, Pow2(k)), 0);
    }
  }

  lemma {:induction false} Pow2Monotone(a: nat, b: nat)
    requires a <= b
    ensures Pow2(a) <= Pow2(b) && (a < b ==> Pow2(a) < Pow2(b))
  {
    if a < b {
      Pow2Monotone(a, b - 1);
    }
  }

  lemma Pow2By8(n: nat)
    ensures Pow2(n + 8) == 0x100 * Pow2(n)
  {
    assert Pow2(n + 4) == 2 * Pow2(n + 3) == 4 * Pow2(n + 2) == 8 * Pow2(n + 1);
    assert Pow2(n + 8) == 2 * Pow2(n + 7) == 4 * Pow2(n + 6) == 8 * Pow2(n + 5);
  }

  lemma Pow2Of31()
    ensures Pow2(31) == 0x8000_0000
  {
    assert Pow2(7) == 2 * Pow2(6) == 4 * Pow2(5) == 8 * Pow2(4);
    assert Pow2(4) == 2 * Pow2(3) == 4 * Pow2(2) == 8 * Pow2(1);
    Pow2By8(7);
    Pow2By8(15);
    Pow2By8(23);
  }
}
