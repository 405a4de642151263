/**
 Bitwise operators on natural numbers, defined one bit at a time, and what the masks of
 the source compute with them: keeping the low bits of a word, and clearing them.
 */
module Bits {

  function Pow2(k: nat): (p: nat)
    ensures p >= 1
  {
    if k == 0 then 1 else 2 * Pow2(k - 1)
  }

  function And(width: nat, x: nat, y: nat): nat {
    if width == 0 then 0
    else 2 * And(width - 1, x / 2, y / 2) + (if x % 2 == 1 && y % 2 == 1 then 1 else 0)
  }

  function Or(width: nat, x: nat, y: nat): nat {
    if width == 0 then 0
    else 2 * Or(width - 1, x / 2, y / 2) + (if x % 2 == 1 || y % 2 == 1 then 1 else 0)
  }

  function Not(width: nat, x: nat): nat {
    if width == 0 then 0
    else 2 * Not(width - 1, x / 2) + (if x % 2 == 1 then 0 else 1)
  }

  /** Left shift of a width-bit word, one bit at a time, dropping what leaves the word. */
  function ShiftLeft(width: nat, x: nat, k: nat): nat {
    if k == 0 then x
    else
      var doubled := 2 * ShiftLeft(width, x, k - 1);
      if doubled < Pow2(width) then doubled else doubled - Pow2(width)
  }

  /** The k low bits of x. */
  function Low(x: nat, k: nat): (r: nat)
    ensures r <= x && r < Pow2(k)
  {
    if k == 0 then 0 else 2 * Low(x / 2, k - 1) + x % 2
  }

  lemma {:induction false} PowersGrow(k: nat, n: nat)
    requires k <= n
    ensures Pow2(k) <= Pow2(n)
  {
    if k < n { PowersGrow(k, n - 1); }
  }

  lemma {:induction false} AndZero(width: nat, x: nat)
    ensures And(width, x, 0) == 0
  {
    if width == 0 {
    } else {
      AndZero(width - 1, x / 2);
    }
  }

  lemma {:induction false} AndOfZero(width: nat, y: nat)
    ensures And(width, 0, y) == 0
  {
    if width == 0 {
    } else {
      AndOfZero(width - 1, y / 2);
    }
  }

  lemma {:induction false} OrZero(width: nat, x: nat)
    requires x < Pow2(width)
    ensures Or(width, x, 0) == x
  {
    if width == 0 {
    } else {
      OrZero(width - 1, x / 2);
    }
  }

  lemma OddHalf(p: nat)
    requires p > 0
    ensures (2 * p - 1) / 2 == p - 1 && (2 * p - 1) % 2 == 1
  {}

  lemma EvenHalf(p: nat)
    ensures (2 * p) / 2 == p && (2 * p) % 2 == 0
  {}

  /** Masking with 2^k - 1 keeps the k low bits. */
  lemma {:induction false} AndKeepsLowBits(width: nat, x: nat, k: nat)
    requires k <= width
    ensures And(width, x, Pow2(k) - 1) == Low(x, k)
  {
    if k == 0 {
      AndZero(width, x);
    } else {
      AndKeepsLowBits(width - 1, x / 2, k - 1);
      OddHalf(Pow2(k - 1));
    }
  }

  lemma {:induction false} LowIsIdentity(x: nat, k: nat)
    requires x < Pow2(k)
    ensures Low(x, k) == x
  {
    if k == 0 {
    } else {
      LowIsIdentity(x / 2, k - 1);
    }
  }

  /** Masking with 2^width - 2^k clears the k low bits. */
  lemma {:induction false} AndClearsLowBits(width: nat, x: nat, k: nat)
    requires k <= width && x < Pow2(width)
    ensures Pow2(width) >= Pow2(k)
    ensures And(width, x, Pow2(width) - Pow2(k)) == x - Low(x, k)
  {
    PowersGrow(k, width);
    if k == 0 {
      AndKeepsLowBits(width, x, width);
      LowIsIdentity(x, width);
    } else {
      AndClearsLowBits(width - 1, x / 2, k - 1);
      EvenHalf(Pow2(width - 1) - Pow2(k - 1));
    }
  }

  lemma {:induction false} NotIsComplement(width: nat, x: nat)
    requires x < Pow2(width)
    ensures Not(width, x) == Pow2(width) - 1 - x
  {
    if width == 0 {
    } else {
      NotIsComplement(width - 1, x / 2);
    }
  }

  /** A word whose k low bits are clear gets them all set by a union with 2^k - 1. */
  lemma {:induction false} OrFillsLowBits(width: nat, x: nat, k: nat)
    requires k <= width && x < Pow2(width) && Low(x, k) == 0
    ensures Or(width, x, Pow2(k) - 1) == x + Pow2(k) - 1
  {
    if k == 0 {
      OrZero(width, x);
    } else {
      OrFillsLowBits(width - 1, x / 2, k - 1);
      OddHalf(Pow2(k - 1));
      assert x % 2 == 0;
    }
  }

  /** Shifting an all-ones word left by k leaves a mask with k zero low bits. */
  lemma {:induction false} AllOnesShifted(width: nat, k: nat)
    requires k <= width
    ensures Pow2(width) >= Pow2(k)
    ensures ShiftLeft(width, Pow2(width) - 1, k) == Pow2(width) - Pow2(k)
  {
    PowersGrow(k, width);
    if k == 0 {
    } else {
      AllOnesShifted(width, k - 1);
    }
  }

  lemma {:induction false} LowOfCleared(x: nat, k: nat)
    ensures Low(x - Low(x, k), k) == 0
  {
    if k == 0 {
    } else {
      LowOfCleared(x / 2, k - 1);
      assert (x - Low(x, k)) / 2 == x / 2 - Low(x / 2, k - 1);
    }
  }

  /** Adding d to a word with k clear low bits puts d in them and keeps the rest, for d < 2^k. */
  lemma {:induction false} LowOfFilled(x: nat, d: nat, k: nat)
    requires Low(x, k) == 0 && d < Pow2(k)
    ensures Low(x + d, k) == d
  {
    if k == 0 {
    } else {
      LowOfFilled(x / 2, d / 2, k - 1);
      assert (x + d) / 2 == x / 2 + d / 2;
    }
  }

  lemma Halving(x: nat, m: nat)
    requires m > 0
    ensures x % (2 * m) == 2 * (x / 2 % m) + x % 2
  {
    var h, q, r := x / 2, x / (2 * m), x % (2 * m);
    assert h / m == q && h % m == r / 2 by {
      assert x == 2 * (m * q) + r;
      assert h == m * q + r / 2;
      QuotientIsUnique(h, m, q, r / 2);
    }
  }

  lemma QuotientIsUnique(x: nat, m: nat, q: nat, r: nat)
    requires m > 0 && r < m && x == m * q + r
    ensures x / m == q && x % m == r
  {
    var p, s := x / m, x % m;
    assert m * (p - q) == r - s;
    assert m * (q - p) == s - r;
    if p > q {
      ProductAtLeast(m, p - q);
    } else if p < q {
      ProductAtLeast(m, q - p);
    }
  }

  lemma ProductAtLeast(m: nat, d: nat)
    requires d >= 1
    ensures m * d >= m
  {}

  /** Keeping k low bits is the remainder modulo 2^k. */
  lemma {:induction false} LowIsRemainder(x: nat, k: nat)
    ensures Low(x, k) == x % Pow2(k)
  {
    if k == 0 {
    } else {
      LowIsRemainder(x / 2, k - 1);
      Halving(x, Pow2(k - 1));
    }
  }

  lemma HalvedQuotient(x: nat, m: nat)
    requires m > 0
    ensures x / (2 * m) == x / 2 / m
  {
    var h := x / 2;
    var q, r := h / m, h % m;
    var p := m * q;
    assert h == p + r;
    assert x == 2 * p + (2 * r + x % 2) && 2 * p == 2 * m * q;
    QuotientIsUnique(x, 2 * m, q, 2 * r + x % 2);
  }

  /** Masking with a single bit tests that bit. */
  lemma {:induction false} AndTestsBit(width: nat, x: nat, k: nat)
    requires k < width
    ensures And(width, x, Pow2(k)) == if x / Pow2(k) % 2 == 1 then Pow2(k) else 0
  {
    if k == 0 {
      AndZero(width - 1, x / 2);
    } else {
      EvenHalf(Pow2(k - 1));
      HalvedQuotient(x, Pow2(k - 1));
      AndTestsBit(width - 1, x / 2, k - 1);
    }
  }
}
