/** The bit-counting loops of aot_intrinsic.c, and the profiler's value ranges built on them. */
module BitLoops {
  import opened Bits

  /** n is the number of zero bits above the highest set bit of a w-bit word. */
  ghost predicate LeadingZeros(u: nat, w: nat, n: nat)
  {
    && n <= w
    && (forall i: nat :: w - n <= i < w ==> !Bit(u, i))
    && (n < w ==> Bit(u, w - n - 1))
  }

  /** n is the number of zero bits below the lowest set bit of a w-bit word. */
  ghost predicate TrailingZeros(u: nat, w: nat, n: nat)
  {
    && n <= w
    && (forall i: nat :: i < n ==> !Bit(u, i))
    && (n < w ==> Bit(u, n))
  }

  /** The number of positions below w at which u has a one. */
  function SetPositions(u: nat, w: nat): nat
  {
    if w == 0 then 0 else SetPositions(u, w - 1) + (if Bit(u, w - 1) then 1 else 0)
  }

  method Clz(word: nat, w: nat) returns (num: nat)
    requires w > 0 && word < Pow2(w)
    ensures LeadingZeros(word, w, num)
  {
    num := 0;
    TopBit(word, w);
    if word == 0 {
      forall i: nat ensures !Bit(0, i) { BitOfZero(i); }
      return w;
    }
    var t := word;
    TopBitMask(t, w);
    while And(t, Pow2(w - 1)) == 0
      invariant 0 < t < Pow2(w) && t == word * Pow2(num)
      invariant And(t, Pow2(w - 1)) != 0 <==> t >= Pow2(w - 1)
      decreases Pow2(w) - t
    {
      ShiftStep(word, num);
      ShiftLeftSmall(t, w);
      num := num + 1;
      t := ShiftLeft(t, w);
      TopBitMask(t, w);
    }
    LeadingFromShift(word, w, num);
  }

  lemma TopBitMask(t: nat, w: nat)
    requires w > 0 && t < Pow2(w)
    ensures And(t, Pow2(w - 1)) != 0 <==> t >= Pow2(w - 1)
  {
    TopBit(t, w);
    AndOneBit(t, w - 1);
  }

  /** `t << 1` on a w-bit word. */
  function ShiftLeft(t: nat, w: nat): nat
  {
    (2 * t) % Pow2(w)
  }

  lemma ShiftLeftSmall(t: nat, w: nat)
    requires w > 0 && t < Pow2(w - 1)
    ensures ShiftLeft(t, w) == 2 * t < Pow2(w)
  {
    ModIs(2 * t, Pow2(w), 0, 2 * t);
  }

  lemma ShiftStep(x: nat, n: nat)
    ensures x * Pow2(n + 1) == 2 * (x * Pow2(n))
  {
  }

  lemma LeadingFromShift(u: nat, w: nat, n: nat)
    requires w > 0 && Pow2(w - 1) <= u * Pow2(n) < Pow2(w)
    ensures LeadingZeros(u, w, n)
  {
    if n >= w {
      PowMonotone(w, n);
      if u > 0 { MulOrder(0, u, Pow2(n)); }
    }
    PowAdd(w - n, n);
    PowAdd(w - n - 1, n);
    if u >= Pow2(w - n) && u > Pow2(w - n) { MulOrder(Pow2(w - n), u, Pow2(n)); }
    if u < Pow2(w - n - 1) { MulOrder(u, Pow2(w - n - 1), Pow2(n)); }
    TopBit(u, w - n);
  }

  method Ctz(word: nat, w: nat) returns (num: nat)
    requires w > 0 && word < Pow2(w)
    ensures TrailingZeros(word, w, num)
  {
    num := 0;
    if word == 0 {
      forall i: nat ensures !Bit(0, i) { BitOfZero(i); }
      return w;
    }
    var t := word;
    LowBitMask(t);
    while And(t, 1) == 0
      invariant t > 0 && word == t * Pow2(num)
      invariant And(t, 1) == t % 2
      decreases t
    {
      HalfStep(t, num);
      num := num + 1;
      t := t / 2;
      LowBitMask(t);
    }
    TrailingFromShift(t, num);
    if num >= w {
      PowMonotone(w, num);
      MulOrder(0, t, Pow2(num));
    }
  }

  lemma LowBitMask(t: nat)
    ensures And(t, 1) == t % 2
  {
    AndOneBit(t, 0);
    assert Pow2(0) == 1;
  }

  lemma HalfStep(t: nat, n: nat)
    requires t % 2 == 0
    ensures (t / 2) * Pow2(n + 1) == t * Pow2(n)
  {
    assert (t / 2) * (2 * Pow2(n)) == (2 * (t / 2)) * Pow2(n);
  }

  lemma {:induction false} TrailingFromShift(t: nat, n: nat)
    requires t % 2 == 1
    ensures Bit(t * Pow2(n), n)
    ensures forall i: nat :: i < n ==> !Bit(t * Pow2(n), i)
  {
    if n > 0 {
      var y := t * Pow2(n - 1);
      assert t * Pow2(n) == 2 * y;
      assert (2 * y) / 2 == y && (2 * y) % 2 == 0;
      TrailingFromShift(t, n - 1);
      forall i: nat | i < n ensures !Bit(2 * y, i) {
        if i > 0 { assert !Bit(y, i - 1); }
      }
    }
  }

  method Popcnt(word: nat, w: nat) returns (count: nat)
    requires word < Pow2(w)
    ensures count == SetPositions(word, w)
  {
    count := 0;
    var u := word;
    while u != 0
      invariant Ones(u) + count == Ones(word)
      decreases u
    {
      ClearLowestOne(u);
      u := And(u, u - 1);
      count := count + 1;
    }
    OnesAreSetPositions(word, w);
  }

  lemma {:induction false} OnesAreSetPositions(u: nat, w: nat)
    requires u < Pow2(w)
    ensures Ones(u) == SetPositions(u, w)
  {
    if w > 0 {
      OnesAreSetPositions(u / 2, w - 1);
      ShiftPositions(u, w - 1);
    }
  }

  lemma {:induction false} ShiftPositions(u: nat, w: nat)
    ensures SetPositions(u, w + 1) == u % 2 + SetPositions(u / 2, w)
  {
    if w == 0 {
      assert SetPositions(u, 0) == 0;
    } else {
      ShiftPositions(u, w - 1);
    }
  }

  // ---- value ranges of the memory-intrinsic profiler ----

  ghost predicate IsPow2(v: nat)
  {
    exists k: nat :: v == Pow2(k)
  }

  /** The lowest value of the range that v belongs to, except that small values and powers of two
      are ranges of their own. */
  ghost predicate IsRangeRep(v: nat, r: nat)
  {
    && (v <= 8 || (v < 513 && IsPow2(v)) ==> r == v)
    && (v >= 513 ==> r == 513)
    && (8 < v < 513 && !IsPow2(v) ==> exists k: nat :: Pow2(k) < v < Pow2(k + 1) && r == Pow2(k) + 1)
  }

  method GetRangeRepValue(value: nat) returns (r: nat)
    requires value < Pow2(64)
    ensures IsRangeRep(value, r)
  {
    if value <= 8 {
      return value;
    } else if value >= 513 {
      return 513;
    }
    r := RangeOf(value, 64);
  }

  /** The range of a value that is neither small nor large, by the loops over w bits. */
  method RangeOf(value: nat, w: nat) returns (r: nat)
    requires w > 0 && 8 < value < 513 && value < Pow2(w)
    ensures IsRangeRep(value, r)
  {
    hide Ones, SetPositions, LeadingZeros, Pow2;
    var ones := Popcnt(value, w);
    OnesAreSetPositions(value, w);
    SingleOne(value);
    if ones == 1 {
      return value;
    }
    var zeros := Clz(value, w);
    HighestOne(value, w, zeros);
    NotAPower(value, w - zeros - 1);
    r := Pow2(w - zeros - 1) + 1;
  }

  lemma NotAPower(v: nat, k: nat)
    requires 8 < v < 513 && !IsPow2(v) && Pow2(k) <= v < Pow2(k + 1)
    ensures IsRangeRep(v, Pow2(k) + 1)
  {
    assert v != Pow2(k);
  }

  /** Exactly the powers of two have a single one. */
  lemma {:induction false} SingleOne(v: nat)
    requires v > 0
    ensures Ones(v) >= 1
    ensures Ones(v) == 1 <==> IsPow2(v)
  {
    if v == 1 {
      assert v == Pow2(0);
    } else {
      SingleOne(v / 2);
      HalfPow(v);
    }
  }

  lemma HalfPow(v: nat)
    requires v > 1
    ensures IsPow2(v) <==> v % 2 == 0 && IsPow2(v / 2)
  {
    if k: nat :| v == Pow2(k) {
      assert k > 0 && v == 2 * Pow2(k - 1);
    }
    if v % 2 == 0 && IsPow2(v / 2) {
      var k: nat :| v / 2 == Pow2(k);
      assert v == Pow2(k + 1);
    }
  }

  lemma HighestOne(v: nat, w: nat, n: nat)
    requires 0 < v < Pow2(w) && LeadingZeros(v, w, n)
    ensures n < w && Pow2(w - n - 1) <= v < Pow2(w - n)
  {
    var k := FloorLog(v);
    PowMonotone(0, w);
    TopBit(v, k + 1);
    if k + 1 > w { PowMonotone(w, k); }
    assert Bit(v, k);
  }

  lemma {:induction false} FloorLog(v: nat) returns (k: nat)
    requires v > 0
    ensures Pow2(k) <= v < Pow2(k + 1)
  {
    if v == 1 {
      k := 0;
    } else {
      k := FloorLog(v / 2);
      k := k + 1;
    }
  }

  /** No power of two lies strictly between two consecutive ones. */
  lemma PowGap(v: nat, k: nat, j: nat)
    requires Pow2(k) < v < Pow2(k + 1)
    ensures v != Pow2(j)
    ensures Pow2(j) < v < Pow2(j + 1) ==> j == k
  {
    if j <= k { PowMonotone(j, k); } else { PowMonotone(k + 1, j); }
    if j + 1 <= k { PowMonotone(j + 1, k); }
  }

  lemma RangeRepUnique(v: nat, r: nat, r': nat)
    requires IsRangeRep(v, r) && IsRangeRep(v, r')
    ensures r == r'
  {
    if 8 < v < 513 && !IsPow2(v) {
      var k: nat :| Pow2(k) < v < Pow2(k + 1) && r == Pow2(k) + 1;
      var j: nat :| Pow2(j) < v < Pow2(j + 1) && r' == Pow2(j) + 1;
      PowGap(v, k, j);
    }
  }

  /** The mapping never increases a value, is monotone, and leaves representatives alone. */
  lemma RangeRepOrder(v: nat, r: nat, v': nat, r': nat)
    requires IsRangeRep(v, r) && IsRangeRep(v', r')
    ensures r <= v
    ensures v <= v' ==> r <= r'
    ensures IsRangeRep(r, r)
  {
    RangeRepBelow(v, r);
    RangeRepBelow(v', r');
    if v <= v' && 8 < v' < 513 && !IsPow2(v') && v > 8 {
      var k: nat :| Pow2(k) < v' < Pow2(k + 1) && r' == Pow2(k) + 1;
      if r > Pow2(k) + 1 {
        PowGap(v', k, k);
        if IsPow2(v) {
          var j: nat :| v == Pow2(j);
          PowGap(v, k, j);
        } else {
          var j: nat :| Pow2(j) < v < Pow2(j + 1) && r == Pow2(j) + 1;
          PowGap(v, k, j);
        }
      }
    }
  }

  lemma RangeRepBelow(v: nat, r: nat)
    requires IsRangeRep(v, r)
    ensures r <= v && r <= 513 && IsRangeRep(r, r)
    ensures v <= 8 || (v < 513 && IsPow2(v)) || v >= 513 || r > 8
  {
    if 8 < v < 513 && !IsPow2(v) {
      var k: nat :| Pow2(k) < v < Pow2(k + 1) && r == Pow2(k) + 1;
      if k < 3 { PowMonotone(k + 1, 3); }
      PowMonotone(3, k);
      assert Pow2(3) == 8;
      assert Pow2(k) < r < Pow2(k + 1);
      if IsPow2(r) {
        var j: nat :| r == Pow2(j);
        PowGap(r, k, j);
      }
    }
  }

  /** v lies strictly between the k-th power of two and the next. */
  predicate Between(k: nat, v: nat)
  {
    Pow2(k) < v < Pow2(k + 1)
  }

  /** All values between two consecutive powers of two share one representative. */
  ghost predicate Constant(k: nat)
  {
    forall v, v', r, r' :: Between(k, v) && Between(k, v') && IsRangeRep(v, r) && IsRangeRep(v', r') ==> r == r'
  }

  /** That is so for every pair of neighbours but 4 and 8, between which every value is its own representative. */
  lemma RangeRepConstant(k: nat)
    ensures Constant(k) <==> k != 2
  {
    assert Pow2(0) == 1 && Pow2(1) == 2 && Pow2(2) == 4 && Pow2(3) == 8;
    if k == 2 {
      assert Between(2, 5) && Between(2, 6) && IsRangeRep(5, 5) && IsRangeRep(6, 6);
    } else {
      if k >= 3 { PowMonotone(3, k); }
      forall v, v', r, r' | Between(k, v) && Between(k, v') && IsRangeRep(v, r) && IsRangeRep(v', r') ensures r == r' {
        if k < 2 {
          assert v == v';
          RangeRepUnique(v, r, r');
        } else {
          ConstantAbove8(k, v, r, v', r');
        }
      }
    }
  }

  lemma ConstantAbove8(k: nat, v: nat, r: nat, v': nat, r': nat)
    requires 8 <= Pow2(k) && Between(k, v) && Between(k, v')
    requires IsRangeRep(v, r) && IsRangeRep(v', r')
    ensures r == r'
  {
    assert Pow2(9) == 512;
    if k >= 9 {
      PowMonotone(9, k);
    } else {
      PowMonotone(k + 1, 9);
      forall j: nat ensures v != Pow2(j) && v' != Pow2(j) {
        PowGap(v, k, j);
        PowGap(v', k, j);
      }
      var i: nat :| Pow2(i) < v < Pow2(i + 1) && r == Pow2(i) + 1;
      var j: nat :| Pow2(j) < v' < Pow2(j + 1) && r' == Pow2(j) + 1;
      PowGap(v, k, i);
      PowGap(v', k, j);
    }
  }
}
