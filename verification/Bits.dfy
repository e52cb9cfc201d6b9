/** Bitwise operators on naturals, read off the binary digits.

    An unsigned machine word is modelled as a natural below Pow2(width); on such words these
    functions are the C operators `&`, `|` and, with `*` and `/`, the shifts. */
module Bits {

  function Pow2(n: nat): (p: nat)
    ensures p >= 1
  {
    if n == 0 then 1 else 2 * Pow2(n - 1)
  }

  /** The bit at position i, counted from the least significant one. */
  predicate Bit(x: nat, i: nat)
  {
    if i == 0 then x % 2 == 1 else Bit(x / 2, i - 1)
  }

  function And(x: nat, y: nat): (r: nat)
    ensures r <= x && r <= y
  {
    if x == 0 || y == 0 then 0
    else 2 * And(x / 2, y / 2) + (if x % 2 == 1 && y % 2 == 1 then 1 else 0)
  }

  function Or(x: nat, y: nat): (r: nat)
    ensures r >= x && r >= y
  {
    if x == 0 then y else if y == 0 then x
    else 2 * Or(x / 2, y / 2) + (if x % 2 == 1 || y % 2 == 1 then 1 else 0)
  }

  /** The number of bits that are set. */
  function Ones(x: nat): nat
  {
    if x == 0 then 0 else x % 2 + Ones(x / 2)
  }

  /** AlignUp(v, b) is what `(v + m) & ~m` with `m = b - 1` computes; see AlignByMask. */
  function AlignUp(v: nat, b: nat): (r: nat)
    requires b > 0
    ensures v <= r < v + b && r % b == 0
  {
    var x := v + b - 1;
    ModIs(x - x % b, b, x / b, 0);
    x - x % b
  }

  lemma MulOrder(a: int, b: int, m: nat)
    requires a < b
    ensures a * m + m <= b * m
  {
    assert b * m == a * m + m + (b - a - 1) * m;
    assert (b - a - 1) * m >= 0;
  }

  /** Quotient and remainder are determined by the division equation. */
  lemma ModIs(x: int, m: nat, q: int, r: nat)
    requires m > 0 && x == q * m + r && r < m
    ensures x / m == q && x % m == r
  {
    var q', r' := x / m, x % m;
    assert x == q' * m + r';
    if q' < q { MulOrder(q', q, m); }
    if q < q' { MulOrder(q, q', m); }
  }

  lemma ModDouble(x: nat, m: nat)
    requires m > 0
    ensures x % (2 * m) == 2 * ((x / 2) % m) + x % 2
  {
    var q, r := (x / 2) / m, (x / 2) % m;
    assert x == q * (2 * m) + (2 * r + x % 2) by {
      assert x / 2 == q * m + r;
      assert q * (2 * m) == 2 * (q * m);
    }
    ModIs(x, 2 * m, q, 2 * r + x % 2);
  }

  /** Masking with `2^k - 1` keeps the low k bits. */
  lemma {:induction false} AndLowMask(x: nat, k: nat)
    ensures And(x, Pow2(k) - 1) == x % Pow2(k)
  {
    hide And;
    if k > 0 {
      AndLowMask(x / 2, k - 1);
      LowMaskStep(x, Pow2(k - 1) - 1);
    } else {
      AndZero(x);
    }
  }

  lemma AndZero(x: nat)
    ensures And(x, 0) == 0
  {
  }

  lemma LowMaskStep(x: nat, y: nat)
    requires And(x / 2, y) == (x / 2) % (y + 1)
    ensures And(x, 2 * y + 1) == x % (2 * (y + 1))
  {
    ModDouble(x, y + 1);
    AndOdd(x, y);
  }

  lemma AndOdd(x: nat, y: nat)
    ensures And(x, 2 * y + 1) == 2 * And(x / 2, y) + x % 2
  {
    assert (2 * y + 1) / 2 == y && (2 * y + 1) % 2 == 1;
  }

  /** Masking a word with the complement of `2^k - 1` clears its low k bits. */
  lemma {:induction false} AndHighMask(x: nat, n: nat, k: nat)
    requires x < Pow2(n) && k <= n
    ensures Pow2(k) <= Pow2(n)
    ensures And(x, Pow2(n) - Pow2(k)) == x - x % Pow2(k)
    decreases n
  {
    hide And, Pow2;
    PowMonotone(k, n);
    if k == n {
      HighMaskAll(x, Pow2(n));
    } else if k == 0 {
      AndLowMask(x, n);
      HighMaskNone(x, Pow2(n));
      PowZero();
    } else {
      PowHalf(n);
      PowHalf(k);
      AndHighMask(x / 2, n - 1, k - 1);
      HighMaskStep(x, Pow2(n - 1) - Pow2(k - 1), Pow2(k - 1));
    }
  }

  lemma HighMaskAll(x: nat, q: nat)
    requires x < q
    ensures And(x, q - q) == x - x % q
  {
    AndZero(x);
    ModIs(x, q, 0, x);
  }

  lemma HighMaskNone(x: nat, q: nat)
    requires x < q && And(x, q - 1) == x % q
    ensures And(x, q - 1) == x - x % 1
  {
    hide And;
    ModIs(x, q, 0, x);
  }

  lemma PowZero()
    ensures Pow2(0) == 1
  {
  }

  lemma PowHalf(n: nat)
    requires n > 0
    ensures Pow2(n) == 2 * Pow2(n - 1)
  {
  }

  lemma HighMaskStep(x: nat, y: nat, q: nat)
    requires q > 0 && And(x / 2, y) == x / 2 - (x / 2) % q
    ensures And(x, 2 * y) == x - x % (2 * q)
  {
    AndEven(x, y);
    ModDouble(x, q);
  }

  lemma AndEven(x: nat, y: nat)
    ensures And(x, 2 * y) == 2 * And(x / 2, y)
  {
    assert (2 * y) / 2 == y && (2 * y) % 2 == 0;
  }

  lemma {:induction false} PowMonotone(i: nat, j: nat)
    requires i <= j
    ensures Pow2(i) <= Pow2(j)
    decreases j - i
  {
    if i < j { PowMonotone(i, j - 1); }
  }

  lemma {:induction false} PowAdd(i: nat, j: nat)
    ensures Pow2(i) * Pow2(j) == Pow2(i + j)
  {
    if i > 0 {
      PowAdd(i - 1, j);
      DoubleProduct(Pow2(i - 1), Pow2(j));
    }
  }

  lemma DoubleProduct(x: nat, y: nat)
    ensures (2 * x) * y == 2 * (x * y)
  {
  }

  /** The alignment macro of the C code: for a power of two b and no wrap-around at 2^n,
      `(v + (b-1)) & ~(b-1)` is the least multiple of b that is at least v. */
  lemma AlignByMask(v: nat, n: nat, k: nat)
    requires k <= n && v + Pow2(k) - 1 < Pow2(n)
    ensures Pow2(k) <= Pow2(n)
    ensures And(v + Pow2(k) - 1, Pow2(n) - Pow2(k)) == AlignUp(v, Pow2(k))
  {
    AndHighMask(v + Pow2(k) - 1, n, k);
  }

  lemma {:induction false} OrDisjoint(x: nat, y: nat, k: nat)
    requires x < Pow2(k)
    ensures Or(x, y * Pow2(k)) == x + y * Pow2(k)
  {
    if k > 0 && x > 0 && y * Pow2(k) > 0 {
      var z := y * Pow2(k - 1);
      assert y * Pow2(k) == 2 * z;
      OrDisjoint(x / 2, y, k - 1);
    }
  }

  /** Testing a word against a one-bit mask reads that bit. */
  lemma {:induction false} AndOneBit(x: nat, k: nat)
    ensures And(x, Pow2(k)) == if Bit(x, k) then Pow2(k) else 0
  {
    if x == 0 {
      BitOfZero(k);
    } else if k > 0 {
      assert (2 * Pow2(k - 1)) / 2 == Pow2(k - 1) && (2 * Pow2(k - 1)) % 2 == 0;
      AndOneBit(x / 2, k - 1);
    } else {
      assert And(x, 1) == 2 * And(x / 2, 0) + x % 2;
    }
  }

  lemma {:induction false} BitOfZero(k: nat)
    ensures !Bit(0, k)
  {
    if k > 0 { BitOfZero(k - 1); }
  }

  /** A word below 2^n has its bit n-1 set exactly when it is at least 2^(n-1), and no bit from n on. */
  lemma {:induction false} TopBit(x: nat, n: nat)
    requires x < Pow2(n)
    ensures n > 0 ==> (Bit(x, n - 1) <==> x >= Pow2(n - 1))
    ensures forall i: nat :: i >= n ==> !Bit(x, i)
  {
    if n == 0 {
      forall i: nat | i >= n ensures !Bit(x, i) { BitOfZero(i); }
    } else {
      if n > 1 { TopBit(x / 2, n - 1); }
      forall i: nat | i >= n ensures !Bit(x, i) {
        if n > 1 { assert !Bit(x / 2, i - 1); } else { BitOfZero(i - 1); }
      }
    }
  }

  /** `u & (u - 1)` clears exactly the lowest set bit, so the count of ones drops by one. */
  lemma {:induction false} ClearLowestOne(u: nat)
    requires u > 0
    ensures Ones(And(u, u - 1)) == Ones(u) - 1
    ensures And(u, u - 1) < u
  {
    if u % 2 == 1 {
      assert (u - 1) / 2 == u / 2;
      AndSelf(u / 2);
    } else {
      assert (u - 1) / 2 == u / 2 - 1;
      ClearLowestOne(u / 2);
    }
  }

  lemma {:induction false} AndSelf(x: nat)
    ensures And(x, x) == x
  {
    if x > 0 { AndSelf(x / 2); }
  }
}
