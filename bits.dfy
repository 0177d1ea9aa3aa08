/** Powers of two, the bits of an integer, and sums of distinct powers of two:
    the arithmetic behind tile codes (lcl_utils.py) and node labels
    (solver.py), with two facts about multiplication. */
module Bits {

  import Sets

  /** 2**n. */
  function Pow2(n: nat): (p: nat)
    ensures p >= 1 && n < p
  {
    if n == 0 then 1 else 2 * Pow2(n - 1)
  }

  lemma MulSucc(s: int, b: int)
    ensures (s + 1) * b == s * b + b
  {
  }

  /** Multiplying by a non-negative number keeps the order. */
  lemma MulMono(a: int, c: int, b: int)
    requires a >= c && b >= 0
    ensures a * b >= c * b
  {
    var d := a - c;
    assert a * b == c * b + d * b;
  }

  lemma {:induction false} Pow2Mono(m: nat, n: nat)
    requires m <= n
    ensures Pow2(m) <= Pow2(n)
    decreases n
  {
    if m < n {
      Pow2Mono(m, n - 1);
    }
  }

  /** Bit i of n, read as Python's `(n >> i) & 1 == 1`, or equally
      `n & 2**i != 0`.  `>>` floors, and flooring by 2 is Dafny's `/` (the
      divisor is positive), so this holds for negative n as well. */
  predicate Bit(n: int, i: nat)
    decreases i
  {
    if i == 0 then n % 2 == 1 else Bit(n / 2, i - 1)
  }

  /** No bit at or above the highest power of two not exceeding n is set: a
      number below 2**i has bit i clear, so a set bit i has i < n. */
  lemma {:induction false} HighBitsZero(n: nat, i: nat)
    requires n < Pow2(i)
    ensures !Bit(n, i)
    decreases i
  {
    if i > 0 {
      HighBitsZero(n / 2, i - 1);
    }
  }

  lemma BitBelow(n: nat, i: nat)
    requires Bit(n, i)
    ensures i < n && Pow2(i) <= n
  {
    if n < Pow2(i) {
      HighBitsZero(n, i);
    }
  }

  /** A natural below 2**n has no bit set from n on. */
  lemma HighBitsClear(v: nat, n: nat, i: nat)
    requires v < Pow2(n) && n <= i
    ensures !Bit(v, i)
  {
    Pow2Mono(n, i);
    HighBitsZero(v, i);
  }

  /** Two naturals with the same bits are equal. */
  lemma {:induction false} BitsEqual(a: nat, b: nat)
    requires forall i: nat :: Bit(a, i) == Bit(b, i)
    ensures a == b
    decreases a + b
  {
    if a + b > 0 {
      assert Bit(a, 0) == Bit(b, 0);
      forall i: nat
        ensures Bit(a / 2, i) == Bit(b / 2, i)
      {
        var j := i + 1;
        assert Bit(a, j) == Bit(b, j);
      }
      BitsEqual(a / 2, b / 2);
    }
  }

  /** The integers 0 .. n - 1. */
  function Below(n: nat): (r: set<int>)
    ensures forall i :: i in r <==> 0 <= i < n
  {
    if n == 0 then {} else Below(n - 1) + {n - 1}
  }

  /** The sum of 2**i over a finite set of exponents. */
  ghost function SumPow(s: set<nat>): nat
  {
    Sets.SumOf(s, Pow2)
  }

  /** The exponents of s lowered by one, 0 dropped. */
  ghost function Lower(s: set<nat>): (r: set<nat>)
    ensures forall j: nat :: j in r <==> j + 1 in s
  {
    var r := set i: nat | i in s && i >= 1 :: (i - 1) as nat;
    forall j: nat | j + 1 in s
      ensures j in r
    {
      var i: nat := j + 1;
      assert (i - 1) as nat == j;
    }
    r
  }

  /** Splitting off the lowest bit: the sum is its 2**0 term plus twice the
      sum over the lowered exponents. */
  lemma {:induction false} SumPowHalves(s: set<nat>)
    ensures SumPow(s) == (if 0 in s then 1 else 0) + 2 * SumPow(Lower(s))
    decreases |s|
  {
    if s == {} {
      assert Lower(s) == {};
    } else {
      var m := Sets.Pick(s);
      var rest := s - {m};
      Sets.SumOfRemove(s, Pow2, m);
      SumPowHalves(rest);
      var low := if 0 in rest then 1 else 0;
      assert SumPow(s) == Pow2(m) + low + 2 * SumPow(Lower(rest));
      if m == 0 {
        assert Lower(s) == Lower(rest);
      } else {
        var below: nat := m - 1;
        assert Lower(s) - {below} == Lower(rest);
        Sets.SumOfRemove(Lower(s), Pow2, below);
        assert SumPow(Lower(s)) == Pow2(below) + SumPow(Lower(rest));
        assert Pow2(m) == 2 * Pow2(below);
      }
    }
  }

  lemma Halve(low: int, q: int)
    requires 0 <= low <= 1
    ensures (low + 2 * q) % 2 == low && (low + 2 * q) / 2 == q
  {
  }

  /** Bit j of a sum of distinct powers of two is set exactly when 2**j is one
      of them. */
  lemma {:induction false} BitOfSum(s: set<nat>, j: nat)
    ensures Bit(SumPow(s), j) <==> j in s
    decreases j
  {
    SumPowHalves(s);
    var n, q := SumPow(s), SumPow(Lower(s));
    var low := if 0 in s then 1 else 0;
    Halve(low, q);
    if j > 0 {
      BitOfSum(Lower(s), j - 1);
    }
  }

  /** The exponents of the set bits of n: every natural is the sum of its own
      powers of two. */
  lemma SumOfBits(n: nat, s: set<nat>)
    requires forall i: nat :: i in s <==> Bit(n, i)
    ensures SumPow(s) == n
  {
    forall i: nat
      ensures Bit(SumPow(s), i) == Bit(n, i)
    {
      BitOfSum(s, i);
    }
    BitsEqual(SumPow(s), n);
  }

  /** Adding 2**m to a natural below 2**m sets bit m and keeps the others:
      the step of reading a label one bit at a time. */
  lemma {:induction false} AddHighBit(v: nat, m: nat, w: nat)
    requires v < Pow2(m) && w == v + Pow2(m)
    ensures w < Pow2(m + 1)
    ensures forall j: nat :: Bit(w, j) <==> j == m || Bit(v, j)
    decreases m
  {
    if m == 0 {
      forall j: nat
        ensures Bit(w, j) <==> j == m || Bit(v, j)
      {
        if j > 0 {
          HighBitsZero(0, j - 1);
        }
      }
    } else {
      var low, q := v % 2, v / 2;
      var top := Pow2(m - 1);
      assert v == low + 2 * q && q < top;
      Halve(low, q + top);
      AddHighBit(q, m - 1, q + top);
      forall j: nat
        ensures Bit(w, j) <==> j == m || Bit(v, j)
      {
        if j > 0 {
          assert Bit(w, j) == Bit(q + top, j - 1);
          assert Bit(v, j) == Bit(q, j - 1);
        }
      }
    }
  }
}
