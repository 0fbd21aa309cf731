/** Natural numbers as rows of bits, for the shifts and unions of C's unsigned arithmetic. */
module Bits {

  /** Bit `i` of `x`. */
  predicate Bit(x: nat, i: nat) {
    if i == 0 then x % 2 == 1 else Bit(x / 2, i - 1)
  }

  /** x | y */
  function Or(x: nat, y: nat): nat
    decreases x + y
  {
    if x == 0 && y == 0 then 0
    else 2 * Or(x / 2, y / 2) + (if x % 2 == 1 || y % 2 == 1 then 1 else 0)
  }

  /** x << n, without an end to the word. */
  function Shl(x: nat, n: nat): nat {
    if n == 0 then x else 2 * Shl(x, n - 1)
  }

  /** x >> n */
  function Shr(x: nat, n: nat): nat {
    if n == 0 then x else Shr(x / 2, n - 1)
  }

  /** The low `n` bits of `x`. */
  function Low(x: nat, n: nat): nat {
    if n == 0 then 0 else 2 * Low(x / 2, n - 1) + x % 2
  }

  lemma {:induction false} BitOfZero(i: nat)
    ensures !Bit(0, i)
  {
    if i > 0 {
      BitOfZero(i - 1);
    }
  }

  lemma Halved(y: nat, b: nat)
    requires b < 2
    ensures (2 * y + b) / 2 == y && (2 * y + b) % 2 == b
  {
  }

  /** A number put together from its lowest bit and the rest. */
  lemma BitOfStep(y: nat, b: nat, i: nat)
    requires b < 2
    ensures Bit(2 * y + b, i) <==> if i == 0 then b == 1 else Bit(y, i - 1)
  {
    Halved(y, b);
  }

  lemma {:induction false} BitOfOr(x: nat, y: nat, i: nat)
    ensures Bit(Or(x, y), i) <==> Bit(x, i) || Bit(y, i)
  {
    if x == 0 && y == 0 {
      BitOfZero(i);
    } else {
      BitOfStep(Or(x / 2, y / 2), if x % 2 == 1 || y % 2 == 1 then 1 else 0, i);
      if i > 0 {
        BitOfOr(x / 2, y / 2, i - 1);
      }
    }
  }

  lemma {:induction false} BitOfShl(x: nat, n: nat, i: nat)
    ensures Bit(Shl(x, n), i) <==> i >= n && Bit(x, i - n)
  {
    if n > 0 {
      BitOfStep(Shl(x, n - 1), 0, i);
      if i > 0 {
        BitOfShl(x, n - 1, i - 1);
      }
    }
  }

  lemma {:induction false} BitOfShr(x: nat, n: nat, i: nat)
    ensures Bit(Shr(x, n), i) <==> Bit(x, i + n)
  {
    if n > 0 {
      BitOfShr(x / 2, n - 1, i);
    }
  }

  lemma {:induction false} BitOfLow(x: nat, n: nat, i: nat)
    ensures Bit(Low(x, n), i) <==> i < n && Bit(x, i)
  {
    if n == 0 {
      BitOfZero(i);
    } else {
      BitOfStep(Low(x / 2, n - 1), x % 2, i);
      if i > 0 {
        BitOfLow(x / 2, n - 1, i - 1);
      }
    }
  }

  /** Numbers with the same bits are the same. */
  lemma {:induction false} SameBits(x: nat, y: nat)
    requires forall i: nat :: Bit(x, i) == Bit(y, i)
    ensures x == y
    decreases x + y
  {
    if x > 0 || y > 0 {
      assert Bit(x, 0) == Bit(y, 0);
      forall i: nat
        ensures Bit(x / 2, i) == Bit(y / 2, i)
      {
        assert Bit(x, i + 1) == Bit(y, i + 1);
      }
      SameBits(x / 2, y / 2);
    }
  }

  /** A power of two has one bit. */
  lemma {:induction false} BitOfPower(n: nat, i: nat)
    ensures Bit(Shl(1, n), i) <==> i == n
  {
    BitOfShl(1, n, i);
    if i > n {
      BitOfZero(i - n - 1);
    }
  }

  lemma {:induction false} OrWithZero(x: nat)
    ensures Or(x, 0) == x && Or(0, x) == x
  {
    if x > 0 {
      OrWithZero(x / 2);
    }
  }

  lemma Doubled(y: nat)
    ensures 2 * y / 2 == y && 2 * y % 2 == 0
  {
  }

  /** The union of numbers without a common bit is their sum. */
  lemma {:induction false} OrOfDisjoint(x: nat, y: nat, k: nat)
    requires x < Shl(1, k)
    ensures Or(x, Shl(y, k)) == x + Shl(y, k)
    decreases k
  {
    if k == 0 {
      OrWithZero(y);
    } else {
      Doubled(Shl(y, k - 1));
      OrOfDisjoint(x / 2, y, k - 1);
    }
  }

  /** A number is its low bits and, above them, the others. */
  lemma {:induction false} LowAndRest(x: nat, n: nat)
    ensures Low(x, n) < Shl(1, n)
    ensures x == Low(x, n) + Shl(Shr(x, n), n)
  {
    if n > 0 {
      LowAndRest(x / 2, n - 1);
    }
  }

  /** Shifts as multiplications. */
  lemma ShlIsProduct(x: nat)
    ensures Shl(x, 7) == 0x80 * x && Shl(x, 8) == 0x100 * x && Shl(x, 15) == 0x8000 * x
    ensures Shl(x, 10) == 0x400 * x && Shl(x, 16) == 0x1_0000 * x && Shl(x, 32) == 0x1_0000_0000 * x
  {
    ShlTwice(x, 4, 3);
    ShlTwice(x, 4, 4);
    ShlTwice(x, 8, 2);
    ShlTwice(x, 8, 7);
    ShlTwice(x, 8, 8);
    ShlTwice(x, 16, 16);
    ShlFour(x);
    ShlFour(Shl(x, 4));
    ShlFour(Shl(x, 8));
    ShlFour(Shl(x, 16));
    ShlTwice(Shl(x, 8), 4, 3);
    ShlTwice(Shl(x, 8), 4, 4);
    ShlFour(Shl(Shl(x, 8), 4));
    ShlTwice(Shl(x, 16), 8, 8);
    ShlTwice(Shl(x, 16), 4, 4);
    ShlFour(Shl(Shl(x, 16), 4));
    ShlTwice(Shl(Shl(x, 16), 8), 4, 4);
    ShlFour(Shl(Shl(x, 16), 8));
    ShlFour(Shl(Shl(Shl(x, 16), 8), 4));
  }

  lemma ShlFour(x: nat)
    ensures Shl(x, 2) == 4 * x && Shl(x, 3) == 8 * x && Shl(x, 4) == 16 * x
  {
    assert Shl(x, 1) == 2 * x;
  }

  lemma {:induction false} ShlTwice(x: nat, a: nat, b: nat)
    ensures Shl(x, a + b) == Shl(Shl(x, a), b)
    decreases b
  {
    if b > 0 {
      ShlTwice(x, a, b - 1);
    }
  }
}
