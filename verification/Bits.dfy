/**
 Unsigned integers seen as sequences of bits. Every operation is defined one bit at a
 time, so that facts about shifts and masks are proved by induction on the width and
 need no multiplication by powers of two.
 */
module Bits {

  /** Bit i of x. */
  predicate BitAt(x: nat, i: nat) {
    if i == 0 then x % 2 == 1 else BitAt(x / 2, i - 1)
  }

  function Pow2(n: nat): (p: nat)
    ensures p >= 1
  {
    if n == 0 then 1 else 2 * Pow2(n - 1)
  }

  /** x >> n */
  function Shr(x: nat, n: nat): nat {
    if n == 0 then x else Shr(x / 2, n - 1)
  }

  /** x << n, without loss */
  function Shl(x: nat, n: nat): nat {
    if n == 0 then x else 2 * Shl(x, n - 1)
  }

  /** The n low bits of x. */
  function Low(x: nat, n: nat): nat {
    if n == 0 then 0 else 2 * Low(x / 2, n - 1) + x % 2
  }

  /** (1 << n) - 1 */
  function Ones(n: nat): nat {
    if n == 0 then 0 else 2 * Ones(n - 1) + 1
  }

  /** x | y */
  function Or(x: nat, y: nat): nat {
    if x == 0 then y
    else 2 * Or(x / 2, y / 2) + (if x % 2 == 1 || y % 2 == 1 then 1 else 0)
  }

  /** x & y */
  function And(x: nat, y: nat): nat {
    if x == 0 then 0
    else 2 * And(x / 2, y / 2) + (if x % 2 == 1 && y % 2 == 1 then 1 else 0)
  }

  /** x ^ y */
  function Xor(x: nat, y: nat): nat {
    if x == 0 then y
    else 2 * Xor(x / 2, y / 2) + (if x % 2 != y % 2 then 1 else 0)
  }

  /** x & ~y */
  function AndNot(x: nat, y: nat): nat {
    if x == 0 then 0
    else 2 * AndNot(x / 2, y / 2) + (if x % 2 == 1 && y % 2 == 0 then 1 else 0)
  }

  lemma ZeroAt(i: nat)
    ensures !BitAt(0, i)
  {
  }

  lemma {:induction false} ShrAt(x: nat, n: nat, i: nat)
    ensures BitAt(Shr(x, n), i) == BitAt(x, n + i)
  {
    if n > 0 {
      ShrAt(x / 2, n - 1, i);
    }
  }

  lemma {:induction false} ShlAt(x: nat, n: nat, i: nat)
    ensures BitAt(Shl(x, n), i) == (i >= n && BitAt(x, i - n))
  {
    if n > 0 && i > 0 {
      ShlAt(x, n - 1, i - 1);
    }
  }

  lemma {:induction false} LowAt(x: nat, n: nat, i: nat)
    ensures BitAt(Low(x, n), i) == (i < n && BitAt(x, i))
  {
    if n == 0 {
      ZeroAt(i);
    } else if i > 0 {
      LowAt(x / 2, n - 1, i - 1);
    }
  }

  lemma {:induction false} OnesAt(n: nat, i: nat)
    ensures BitAt(Ones(n), i) == (i < n)
  {
    if n == 0 {
      ZeroAt(i);
    } else if i > 0 {
      OnesAt(n - 1, i - 1);
    }
  }

  lemma {:induction false} OrAt(x: nat, y: nat, i: nat)
    ensures BitAt(Or(x, y), i) == (BitAt(x, i) || BitAt(y, i))
  {
    if x == 0 {
      ZeroAt(i);
    } else if i > 0 {
      OrAt(x / 2, y / 2, i - 1);
    }
  }

  lemma {:induction false} AndAt(x: nat, y: nat, i: nat)
    ensures BitAt(And(x, y), i) == (BitAt(x, i) && BitAt(y, i))
  {
    if x == 0 {
      ZeroAt(i);
    } else if i > 0 {
      AndAt(x / 2, y / 2, i - 1);
    }
  }

  lemma {:induction false} XorAt(x: nat, y: nat, i: nat)
    ensures BitAt(Xor(x, y), i) == (BitAt(x, i) != BitAt(y, i))
  {
    if x == 0 {
      ZeroAt(i);
    } else if i > 0 {
      XorAt(x / 2, y / 2, i - 1);
    }
  }

  lemma {:induction false} AndNotAt(x: nat, y: nat, i: nat)
    ensures BitAt(AndNot(x, y), i) == (BitAt(x, i) && !BitAt(y, i))
  {
    if x == 0 {
      ZeroAt(i);
    } else if i > 0 {
      AndNotAt(x / 2, y / 2, i - 1);
    }
  }

  /** Two numbers with the same bits are equal. */
  lemma {:induction false} SameBits(x: nat, y: nat)
    requires forall i: nat :: BitAt(x, i) == BitAt(y, i)
    ensures x == y
  {
    assert BitAt(x, 0) == BitAt(y, 0);
    if x + y > 0 {
      forall i: nat ensures BitAt(x / 2, i) == BitAt(y / 2, i) {
        assert BitAt(x, i + 1) == BitAt(y, i + 1);
      }
      SameBits(x / 2, y / 2);
    }
  }

  /** A number fits in n bits exactly when its bits from n on are clear. */
  lemma {:induction false} Fits(x: nat, n: nat)
    ensures x < Pow2(n) <==> Low(x, n) == x
  {
    if n > 0 {
      Fits(x / 2, n - 1);
    }
  }

  lemma FitsByBits(x: nat, n: nat)
    requires forall i: nat :: i >= n ==> !BitAt(x, i)
    ensures x < Pow2(n)
  {
    forall i: nat ensures BitAt(Low(x, n), i) == BitAt(x, i) {
      LowAt(x, n, i);
    }
    SameBits(Low(x, n), x);
    Fits(x, n);
  }

  lemma NoHighBits(x: nat, n: nat, i: nat)
    requires x < Pow2(n) && i >= n
    ensures !BitAt(x, i)
  {
    Fits(x, n);
    LowAt(x, n, i);
  }

  lemma LowFits(x: nat, n: nat)
    ensures Low(x, n) < Pow2(n)
  {
    forall i: nat | i >= n ensures !BitAt(Low(x, n), i) {
      LowAt(x, n, i);
    }
    FitsByBits(Low(x, n), n);
  }

  lemma BitwiseFits(x: nat, y: nat, n: nat)
    requires x < Pow2(n) && y < Pow2(n)
    ensures Or(x, y) < Pow2(n) && And(x, y) < Pow2(n) && Xor(x, y) < Pow2(n) && AndNot(x, y) < Pow2(n)
  {
    forall i: nat | i >= n
      ensures !BitAt(Or(x, y), i) && !BitAt(And(x, y), i) && !BitAt(Xor(x, y), i) && !BitAt(AndNot(x, y), i)
    {
      NoHighBits(x, n, i);
      NoHighBits(y, n, i);
      OrAt(x, y, i);
      AndAt(x, y, i);
      XorAt(x, y, i);
      AndNotAt(x, y, i);
    }
    FitsByBits(Or(x, y), n);
    FitsByBits(And(x, y), n);
    FitsByBits(Xor(x, y), n);
    FitsByBits(AndNot(x, y), n);
  }

  lemma {:induction false} OnesIsMax(n: nat)
    ensures Ones(n) == Pow2(n) - 1
  {
    if n > 0 {
      OnesIsMax(n - 1);
    }
  }

  lemma {:induction false} LowIsRemainder(x: nat, n: nat)
    ensures Low(x, n) == x % Pow2(n)
  {
    if n > 0 {
      LowIsRemainder(x / 2, n - 1);
      HalfRemainder(x, Pow2(n - 1));
    }
  }

  lemma HalfRemainder(x: nat, m: nat)
    requires m > 0
    ensures x % (2 * m) == 2 * (x / 2 % m) + x % 2
  {
    var q, r := x / 2 / m, x / 2 % m;
    assert x / 2 == q * m + r;
    assert x == q * (2 * m) + (2 * r + x % 2) by {
      assert x == 2 * (x / 2) + x % 2;
      assert 2 * (q * m) == q * (2 * m);
    }
    RemainderIs(x, 2 * m, q, 2 * r + x % 2);
  }

  lemma RemainderIs(x: nat, m: nat, q: nat, r: nat)
    requires r < m && x == q * m + r
    ensures x % m == r
  {
    var d := x / m - q;
    assert x == x / m * m + x % m;
    assert d * m == x / m * m - q * m;
    assert d > 0 ==> d * m >= m;
    assert d < 0 ==> d * m + m <= 0;
  }

  /** Masking with ones is the remainder by a power of two. */
  lemma AndOnes(x: nat, n: nat)
    ensures And(x, Ones(n)) == x % Pow2(n)
  {
    forall i: nat ensures BitAt(And(x, Ones(n)), i) == BitAt(Low(x, n), i) {
      AndAt(x, Ones(n), i);
      OnesAt(n, i);
      LowAt(x, n, i);
    }
    SameBits(And(x, Ones(n)), Low(x, n));
    LowIsRemainder(x, n);
  }

  lemma {:induction false} Pow2Sum(m: nat, n: nat)
    ensures Pow2(m + n) == Pow2(m) * Pow2(n)
  {
    if m > 0 {
      Pow2Sum(m - 1, n);
    }
  }
}
