/**
 * Rounding a queue size up to a power of two. A `size_t` is a natural number below 2^64; the bit operators are
 * defined on binary digits, so the facts about them hold for words of any width.
 */
module BitRounding {

  const WORD_BITS := 64

  function Pow2(n: nat): (p: nat)
    ensures p >= 1
  {
    if n == 0 then 1 else 2 * Pow2(n - 1)
  }

  function Or(a: nat, b: nat): nat
    decreases a + b
  {
    if a == 0 && b == 0 then 0
    else 2 * Or(a / 2, b / 2) + if a % 2 == 1 || b % 2 == 1 then 1 else 0
  }

  function And(a: nat, b: nat): nat
    decreases a + b
  {
    if a == 0 || b == 0 then 0
    else 2 * And(a / 2, b / 2) + if a % 2 == 1 && b % 2 == 1 then 1 else 0
  }

  function ShiftRight(a: nat, n: nat): nat {
    if n == 0 then a else ShiftRight(a / 2, n - 1)
  }

  predicate IsPowerOfTwo(value: nat) {
    value != 0 && And(value, value - 1) == 0
  }

  // ---- The bit test ----

  lemma {:induction false} AndSelf(a: nat)
    ensures And(a, a) == a
  {
    if a == 0 {
    } else {
      AndSelf(a / 2);
    }
  }

  lemma {:induction false} AndPredecessor(value: nat)
    requires value >= 1
    ensures value % 2 == 1 ==> And(value, value - 1) == value - 1
    ensures value % 2 == 0 ==> And(value, value - 1) == 2 * And(value / 2, value / 2 - 1)
  {
    if value % 2 == 1 {
      AndSelf(value / 2);
      assert (value - 1) / 2 == value / 2;
    } else {
      assert (value - 1) / 2 == value / 2 - 1;
    }
  }

  lemma OneIsPower()
    ensures IsPowerOfTwo(1) && Pow2(0) == 1
  {
    assert And(0, 0) == 0;
    assert And(1, 0) == 0;
  }

  lemma Pow2Doubles(n: nat)
    ensures Pow2(0) == 1 && Pow2(n + 1) == 2 * Pow2(n)
    ensures n >= 1 ==> Pow2(n) == 2 * Pow2(n - 1)
  {}

  /** The bit test is exact. */
  lemma {:induction false} PowerOfTwoTest(value: nat)
    ensures IsPowerOfTwo(value) <==> exists n: nat :: value == Pow2(n)
    decreases value
  {
    hide And, Pow2;
    if value == 1 {
      OneIsPower();
      var zero: nat := 0;
      assert value == Pow2(zero);
    } else if value >= 2 {
      AndPredecessor(value);
      PowerOfTwoTest(value / 2);
      if value % 2 == 0 {
        if n: nat :| value / 2 == Pow2(n) {
          Pow2Doubles(n);
          assert value == Pow2(n + 1);
        }
        if n: nat :| value == Pow2(n) {
          Pow2Doubles(n);
          var half: nat := n - 1;
          assert value / 2 == Pow2(half);
        }
      } else {
        forall n: nat ensures value != Pow2(n) {
          Pow2Doubles(n);
        }
      }
    }
  }

  // ---- The shift-or loop ----

  lemma {:induction false} Pow2Sum(a: nat, b: nat)
    ensures Pow2(a + b) == Pow2(a) * Pow2(b)
  {
    if a == 0 {
    } else {
      Pow2Sum(a - 1, b);
    }
  }

  lemma {:induction false} Pow2Monotone(a: nat, b: nat)
    requires a <= b
    ensures Pow2(a) <= Pow2(b)
    decreases b
  {
    if a == b {
    } else {
      Pow2Monotone(a, b - 1);
    }
  }

  lemma {:induction false} OrBounds(a: nat, b: nat, j: nat)
    requires a < Pow2(j) && b < Pow2(j)
    ensures b <= Or(a, b) < Pow2(j)
  {
    if j == 0 {
    } else {
      OrBounds(a / 2, b / 2, j - 1);
    }
  }

  /** High digits that the second operand does not reach come through unchanged. */
  lemma {:induction false} OrAligned(high: nat, low: nat, b: nat, j: nat)
    requires low < Pow2(j) && b < Pow2(j)
    ensures Or(high * Pow2(j) + low, b) == high * Pow2(j) + Or(low, b)
  {
    if j == 0 {
      OrZero(high);
    } else {
      var p := Pow2(j - 1);
      assert high * Pow2(j) == 2 * (high * p);
      assert (2 * (high * p) + low) / 2 == high * p + low / 2;
      OrAligned(high, low / 2, b / 2, j - 1);
    }
  }

  lemma {:induction false} OrZero(a: nat)
    ensures Or(a, 0) == a
  {
    if a == 0 {
    } else {
      OrZero(a / 2);
    }
  }

  function Min(a: nat, b: nat): nat {
    if a <= b then a else b
  }

  /** v has its leading one at digit k, and its n highest digits (or all, if fewer) are ones. */
  ghost predicate LeadingOnes(v: nat, k: nat, n: nat) {
    Pow2(k + 1) - Pow2(k + 1 - Min(n, k + 1)) <= v < Pow2(k + 1)
  }

  lemma {:induction false} ShiftBound(v: nat, lower: nat, upper: nat, n: nat)
    requires lower * Pow2(n) <= v < upper * Pow2(n)
    ensures lower <= ShiftRight(v, n) < upper
  {
    if n == 0 {
    } else {
      var p := Pow2(n - 1);
      assert lower * Pow2(n) == 2 * (lower * p) && upper * Pow2(n) == 2 * (upper * p);
      ShiftBound(v / 2, lower, upper, n - 1);
    }
  }

  lemma BelowDivisor(v: nat, d: nat)
    requires v < d
    ensures v / d == 0 && v % d == v
  {}

  lemma DivisorModSelf(d: nat)
    requires d >= 1
    ensures d % d == 0
  {}

  /** Each round doubles the number of leading ones. */
  lemma Round(v: nat, k: nat, n: nat)
    requires n >= 1 && LeadingOnes(v, k, n)
    ensures LeadingOnes(Or(v, ShiftRight(v, n)), k, 2 * n)
  {
    if n >= k + 1 {
      Pow2Monotone(k + 1, n);
      ShiftBound(v, 0, 1, n);
      OrZero(v);
    } else {
      ShiftedOnes(v, k, n);
      JoinOnes(v, ShiftRight(v, n), k, n);
    }
  }

  lemma JoinOnes(v: nat, b: nat, k: nat, n: nat)
    requires 1 <= n <= k && LeadingOnes(v, k, n)
    requires var j := k + 1 - n; Pow2(j) - Pow2(j - Min(n, j)) <= b < Pow2(j)
    ensures LeadingOnes(Or(v, b), k, 2 * n)
  {
    var j := k + 1 - n;
    Pow2Sum(n, j);
    var high := Pow2(n) - 1;
    MulDifference(Pow2(n), 1, Pow2(j));
    var low := v - high * Pow2(j);
    OrAligned(high, low, b, j);
    OrBounds(low, b, j);
  }

  lemma ShiftedOnes(v: nat, k: nat, n: nat)
    requires 1 <= n <= k && LeadingOnes(v, k, n)
    ensures var j := k + 1 - n; Pow2(j) - Pow2(j - Min(n, j)) <= ShiftRight(v, n) < Pow2(j)
  {
    var j := k + 1 - n;
    Pow2Sum(j, n);
    var missing := if n <= j then Pow2(j - n) else 1;
    if n <= j { Pow2Sum(j - n, n); } else { Pow2Monotone(j, n); }
    Pow2Monotone(j - Min(n, j), j);
    MulDifference(Pow2(j), missing, Pow2(n));
    ShiftBound(v, Pow2(j) - missing, Pow2(j), n);
  }

  lemma MulDifference(a: int, b: int, c: int)
    ensures (a - b) * c == a * c - b * c
  {}

  lemma {:induction false} LeadingDigit(x: nat) returns (k: nat)
    requires x >= 1
    ensures Pow2(k) <= x < Pow2(k + 1)
  {
    if x == 1 {
      k := 0;
    } else {
      k := LeadingDigit(x / 2);
      k := k + 1;
    }
  }

  lemma {:induction false} Pow2Strict(a: nat, b: nat)
    requires Pow2(a) < Pow2(b)
    ensures a < b
  {
    if a >= b { Pow2Monotone(b, a); }
  }

  /** The least power of two that is not below the value. */
  ghost predicate IsLeastPower(rounded: nat, value: nat) {
    && (exists n: nat :: rounded == Pow2(n))
    && value <= rounded
    && (forall n: nat :: value <= Pow2(n) ==> rounded <= Pow2(n))
  }

  lemma LeastPower(value: nat, k: nat)
    requires Pow2(k) < value <= Pow2(k + 1)
    ensures IsLeastPower(Pow2(k + 1), value)
  {
    forall n: nat | value <= Pow2(n) ensures Pow2(k + 1) <= Pow2(n) {
      Pow2Strict(k, n);
      Pow2Monotone(k + 1, n);
    }
  }

  /** The least power of two not below the value, as long as it fits the word; beyond 2^63 the sum wraps to 0. */
  method RoundNextPowerOfTwo(value: nat) returns (rounded: nat)
    requires value < Pow2(WORD_BITS)
    ensures value <= Pow2(WORD_BITS - 1) ==> IsLeastPower(rounded, if value == 0 then 1 else value)
    ensures value > Pow2(WORD_BITS - 1) ==> rounded == 0
  {
    hide Pow2, And, IsLeastPower;
    OneIsPower();
    if value == 0 {
      assert Pow2(0) < Pow2(WORD_BITS) by { WordIsWide(); }
      WordPower(0);
      return 1;
    }
    PowerOfTwoTest(value);
    if IsPowerOfTwo(value) {
      ghost var n: nat :| value == Pow2(n);
      WordPower(n);
      return value;
    }
    assert value != Pow2(0);
    var v := SmearBits(value - 1);
    ghost var k: nat :| Pow2(k) <= value - 1 < Pow2(k + 1) && v == Pow2(k + 1) - 1;
    RoundedSum(k, value);
    return (v + 1) % Pow2(WORD_BITS);
  }

  /** A word holds the numbers below 2^64. */
  lemma WordSize()
    ensures Pow2(WORD_BITS) == 0x1_0000_0000_0000_0000 && Pow2(WORD_BITS - 1) == 0x8000_0000_0000_0000
  {
    assert Pow2(4) == 16;
    hide Pow2;
    Pow2Sum(32, 32);
    Pow2Sum(16, 16);
    Pow2Sum(8, 8);
    Pow2Sum(4, 4);
    Pow2Doubles(63);
  }

  lemma WordIsWide()
    ensures Pow2(0) < Pow2(WORD_BITS)
  {
    Pow2Monotone(1, WORD_BITS);
  }

  /** The shift-or loop sets every digit below the leading one. */
  method SmearBits(x: nat) returns (v: nat)
    requires 1 <= x < Pow2(WORD_BITS)
    ensures exists k: nat :: Pow2(k) <= x < Pow2(k + 1) && v == Pow2(k + 1) - 1
  {
    v := x;
    ghost var k: nat := LeadingDigit(x);
    Pow2Strict(k, WORD_BITS);
    var i: nat := 1;
    while i < WORD_BITS
      invariant i in {1, 2, 4, 8, 16, 32, 64}
      invariant LeadingOnes(v, k, i)
      decreases WORD_BITS - i
    {
      Round(v, k, i);
      v := Or(v, ShiftRight(v, i));
      i := i * 2;
    }
  }

  lemma WordPower(n: nat)
    requires Pow2(n) < Pow2(WORD_BITS)
    ensures Pow2(n) <= Pow2(WORD_BITS - 1) && IsLeastPower(Pow2(n), Pow2(n))
  {
    Pow2Strict(n, WORD_BITS);
    Pow2Monotone(n, WORD_BITS - 1);
  }

  lemma RoundedSum(k: nat, value: nat)
    requires Pow2(k) < value <= Pow2(k + 1) && value < Pow2(WORD_BITS)
    ensures value <= Pow2(WORD_BITS - 1) ==> IsLeastPower(Pow2(k + 1) % Pow2(WORD_BITS), value)
    ensures value > Pow2(WORD_BITS - 1) ==> Pow2(k + 1) % Pow2(WORD_BITS) == 0
  {
    Pow2Strict(k, WORD_BITS);
    LeastPower(value, k);
    Wraps(k, value, WORD_BITS);
  }

  /** The sum fits the word unless the value is above half its range. */
  lemma Wraps(k: nat, value: nat, bits: nat)
    requires k < bits && Pow2(k) < value <= Pow2(k + 1)
    ensures value <= Pow2(bits - 1) ==> Pow2(k + 1) % Pow2(bits) == Pow2(k + 1)
    ensures value > Pow2(bits - 1) ==> Pow2(k + 1) % Pow2(bits) == 0
  {
    if value <= Pow2(bits - 1) {
      Pow2Strict(k, bits - 1);
      Pow2Monotone(k + 1, bits - 1);
      BelowDivisor(Pow2(k + 1), Pow2(bits));
    } else {
      Pow2Strict(bits - 1, k + 1);
      assert k + 1 == bits;
      DivisorModSelf(Pow2(bits));
    }
  }
}
