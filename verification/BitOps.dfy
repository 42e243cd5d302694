/**
  Integer bit operators as the three implementations use them.

  All operands are mathematical integers in two's complement with infinitely
  many sign bits: Dafny's Euclidean division by 2 is the arithmetic right
  shift, so negative operands need no special treatment.
 */
module BitOps {

  function Pow2(n: nat): (r: nat)
    ensures r >= 1
  {
    if n == 0 then 1 else 2 * Pow2(n - 1)
  }

  /** Bit `i` of `x`, counted from the least significant one. */
  predicate TestBit(x: int, i: nat)
    decreases i
  {
    if i == 0 then x % 2 == 1 else TestBit(x / 2, i - 1)
  }

  /** `x >> k` */
  function Shr(x: int, k: nat): int
    decreases k
  {
    if k == 0 then x else Shr(x / 2, k - 1)
  }

  /** `x << k` */
  function Shl(x: int, k: nat): (r: int)
    ensures x >= 0 ==> r >= 0
  {
    if k == 0 then x else 2 * Shl(x, k - 1)
  }

  /** `x & m` */
  function And(x: int, m: nat): (r: nat)
    ensures r <= m
    decreases m
  {
    if m == 0 then 0 else (if m % 2 == 1 then x % 2 else 0) + 2 * And(x / 2, m / 2)
  }

  /** `x & ~m` */
  function AndNot(x: nat, m: nat): (r: nat)
    ensures r <= x
    decreases x
  {
    if x == 0 then 0 else (if m % 2 == 1 then 0 else x % 2) + 2 * AndNot(x / 2, m / 2)
  }

  /** `x | y` */
  function Or(x: nat, y: nat): nat
    decreases x + y
  {
    if x == 0 && y == 0 then 0
    else (if x % 2 == 1 || y % 2 == 1 then 1 else 0) + 2 * Or(x / 2, y / 2)
  }

  /** `(1 << n) - 1` */
  function Mask(n: nat): nat {
    ShlOne(n);
    Shl(1, n) - 1
  }

  lemma ShlOne(n: nat)
    ensures Shl(1, n) == Pow2(n)
  {
  }

  lemma ZeroBits(i: nat)
    ensures !TestBit(0, i)
  {
  }

  lemma TestBitShr(x: int, k: nat, i: nat)
    ensures TestBit(Shr(x, k), i) == TestBit(x, i + k)
    decreases k
  {
  }

  lemma TestBitShl(x: int, k: nat, i: nat)
    ensures TestBit(Shl(x, k), i) == (i >= k && TestBit(x, i - k))
    decreases k
  {
    if k > 0 {
      assert Shl(x, k) == 2 * Shl(x, k - 1);
      if i > 0 {
        TestBitShl(x, k - 1, i - 1);
      }
    }
  }

  lemma TestBitAnd(x: int, m: nat, i: nat)
    ensures TestBit(And(x, m), i) == (TestBit(x, i) && TestBit(m, i))
    decreases m
  {
    if m == 0 {
      ZeroBits(i);
    } else {
      var h := And(x / 2, m / 2);
      assert And(x, m) / 2 == h;
      if i > 0 {
        TestBitAnd(x / 2, m / 2, i - 1);
      }
    }
  }

  lemma TestBitAndNot(x: nat, m: nat, i: nat)
    ensures TestBit(AndNot(x, m), i) == (TestBit(x, i) && !TestBit(m, i))
    decreases x
  {
    if x == 0 {
      ZeroBits(i);
    } else {
      assert AndNot(x, m) / 2 == AndNot(x / 2, m / 2);
      if i > 0 {
        TestBitAndNot(x / 2, m / 2, i - 1);
      }
    }
  }

  lemma TestBitOr(x: nat, y: nat, i: nat)
    ensures TestBit(Or(x, y), i) == (TestBit(x, i) || TestBit(y, i))
    decreases x + y
  {
    if x == 0 && y == 0 {
      ZeroBits(i);
    } else {
      assert Or(x, y) / 2 == Or(x / 2, y / 2);
      if i > 0 {
        TestBitOr(x / 2, y / 2, i - 1);
      }
    }
  }

  lemma TestBitMask(n: nat, i: nat)
    ensures TestBit(Mask(n), i) == (i < n)
    decreases n
  {
    ShlOne(n);
    if n == 0 {
      ZeroBits(i);
    } else {
      ShlOne(n - 1);
      assert Mask(n) == 2 * Mask(n - 1) + 1;
      if i > 0 {
        TestBitMask(n - 1, i - 1);
      }
    }
  }

  lemma OrBound(x: nat, y: nat, n: nat)
    requires x < Pow2(n) && y < Pow2(n)
    ensures Or(x, y) < Pow2(n)
    decreases n
  {
    if n > 0 && (x > 0 || y > 0) {
      OrBound(x / 2, y / 2, n - 1);
    }
  }

  lemma ShlBound(x: nat, k: nat, n: nat)
    requires x < Pow2(n)
    ensures 0 <= Shl(x, k) < Pow2(n + k)
    decreases k
  {
    if k > 0 {
      ShlBound(x, k - 1, n);
    }
  }

  /** Two numbers below 2^n with the same low `n` bits are equal. */
  lemma Extensional(x: nat, y: nat, n: nat)
    requires x < Pow2(n) && y < Pow2(n)
    requires forall i: nat :: i < n ==> TestBit(x, i) == TestBit(y, i)
    ensures x == y
  {
    if n > 0 {
      assert TestBit(x, 0) == TestBit(y, 0);
      forall i: nat | i < n - 1 ensures TestBit(x / 2, i) == TestBit(y / 2, i) {
        assert TestBit(x, i + 1) == TestBit(y, i + 1);
      }
      Extensional(x / 2, y / 2, n - 1);
    }
  }

  /** Bits at or above `n` of a number below 2^n are clear. */
  lemma HighBits(x: nat, n: nat, i: nat)
    requires x < Pow2(n) && n <= i
    ensures !TestBit(x, i)
    decreases n
  {
    if n == 0 {
      ZeroBits(i);
    } else {
      HighBits(x / 2, n - 1, i - 1);
    }
  }

  lemma Pow2Add(a: nat, b: nat)
    ensures Pow2(a + b) == Pow2(a) * Pow2(b)
    decreases a
  {
    if a > 0 {
      Pow2Add(a - 1, b);
    }
  }

  lemma {:induction false} TopBitOfRange(x: int, n: nat)
    requires n > 0 && -(Pow2(n) as int) <= x < Pow2(n)
    ensures x >= 0 ==> (TestBit(x, n - 1) <==> x >= Pow2(n - 1))
    ensures x < 0 ==> (TestBit(x, n - 1) <==> x >= -(Pow2(n - 1) as int))
    decreases n
  {
    if n > 1 {
      TopBitOfRange(x / 2, n - 1);
    }
  }
}
