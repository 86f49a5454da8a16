/** Exact combinatorics behind the two enrichment scores: factorials,
    binomial coefficients, powers of one half, finite sums over an integer
    range, and the two identities that bound the scores by 1 (the binomial
    row sum and Vandermonde's convolution). */
module Combinatorics {

  /** n! */
  function Fact(n: nat): (r: nat)
    ensures r >= 1
  {
    if n == 0 then 1 else n * Fact(n - 1)
  }

  /** The binomial coefficient C(n, k), which is 0 when k < 0 or k > n;
      defined by Pascal's rule. */
  function Binom(n: nat, k: int): (r: nat)
    ensures k < 0 || k > n ==> r == 0
    ensures 0 <= k <= n ==> r >= 1
    decreases n
  {
    if k < 0 || k > n then 0
    else if n == 0 then 1
    else Binom(n - 1, k - 1) + Binom(n - 1, k)
  }

  lemma {:induction false} BinomEdges(n: nat)
    ensures Binom(n, 0) == 1 && Binom(n, n) == 1
  {
    if n > 0 {
      BinomEdges(n - 1);
    }
  }

  /** Pascal's rule, for every integer k once n >= 1. */
  lemma Pascal(n: nat, k: int)
    requires n >= 1
    ensures Binom(n, k) == Binom(n - 1, k - 1) + Binom(n - 1, k)
  {
  }

  /** The arithmetic of the inductive step of `BinomFact`, on plain numbers. */
  lemma FactStepArith(n: nat, k: nat, a: nat, b: nat, c: nat, f: nat, fk: nat, fk1: nat, fnk: nat, fnk1: nat)
    requires c == a + b
    requires a * fk1 * fnk == f && b * fk * fnk1 == f
    requires fk == k * fk1 && fnk == (n - k) * fnk1 && k <= n
    ensures c * fk * fnk == n * f
  {
    calc {
      c * fk * fnk;
      a * fk * fnk + b * fk * fnk;
      { assert a * fk * fnk == k * (a * fk1 * fnk); }
      k * f + b * fk * fnk;
      { assert b * fk * fnk == (n - k) * (b * fk * fnk1); }
      k * f + (n - k) * f;
    }
  }

  /** The factorial form of C(n, k) that the source evaluates:
      C(n, k) * k! * (n - k)! == n!. */
  lemma {:induction false} BinomFact(n: nat, k: nat)
    requires k <= n
    ensures Binom(n, k) * Fact(k) * Fact(n - k) == Fact(n)
    decreases n
  {
    if k == 0 || k == n {
      BinomEdges(n);
    } else {
      BinomFact(n - 1, k - 1);
      BinomFact(n - 1, k);
      Pascal(n, k);
      assert (n - 1) - (k - 1) == n - k;
      FactStepArith(n, k, Binom(n - 1, k - 1), Binom(n - 1, k), Binom(n, k),
                    Fact(n - 1), Fact(k), Fact(k - 1), Fact(n - k), Fact(n - 1 - k));
    }
  }

  /** 2^n */
  function Pow2(n: nat): (r: nat)
    ensures r >= 1
  {
    if n == 0 then 1 else 2 * Pow2(n - 1)
  }

  lemma DoubleProduct(w: nat, x: nat, y: nat, z: nat)
    requires w == 2 * x && x * y == z
    ensures w * y == 2 * z
  {
  }

  /** 2^j * 2^(a - j) == 2^a: the weight p^j * (1 - p)^(a - j) of every
      concordance term is 1 / 2^a when p = 1/2. */
  lemma {:induction false} Pow2Split(a: nat, j: nat)
    requires j <= a
    ensures Pow2(j) * Pow2(a - j) == Pow2(a)
    decreases j
  {
    if j == 0 {
      assert Pow2(0) == 1 && a - j == a;
    } else {
      Pow2Split(a - 1, j - 1);
      assert a - 1 - (j - 1) == a - j;
      DoubleProduct(Pow2(j), Pow2(j - 1), Pow2(a - j), Pow2(a - 1));
    }
  }

  /** f(lo) + ... + f(hi - 1), and 0 when hi <= lo (Python's `sum` over `range(lo, hi)`). */
  function Sum(lo: int, hi: int, f: int -> nat): nat
    decreases hi - lo
  {
    if hi <= lo then 0 else Sum(lo, hi - 1, f) + f(hi - 1)
  }

  lemma {:induction false} SumSplit(lo: int, mid: int, hi: int, f: int -> nat)
    requires lo <= mid <= hi
    ensures Sum(lo, hi, f) == Sum(lo, mid, f) + Sum(mid, hi, f)
    decreases hi - mid
  {
    if hi > mid {
      SumSplit(lo, mid, hi - 1, f);
    }
  }

  lemma {:induction false} SumZero(lo: int, hi: int, f: int -> nat)
    requires forall j :: lo <= j < hi ==> f(j) == 0
    ensures Sum(lo, hi, f) == 0
    decreases hi - lo
  {
    if hi > lo {
      SumZero(lo, hi - 1, f);
    }
  }

  /** A sum with a single non-zero term is that term. */
  lemma SumOne(lo: int, hi: int, f: int -> nat, x: int)
    requires lo <= x < hi
    requires forall j :: lo <= j < hi && j != x ==> f(j) == 0
    ensures Sum(lo, hi, f) == f(x)
  {
    SumSplit(lo, x, hi, f);
    SumSplit(x, x + 1, hi, f);
    SumZero(lo, x, f);
    SumZero(x + 1, hi, f);
  }

  /** A sub-range sums to at most the whole range. */
  lemma SumWindow(lo: int, hi: int, lo': int, hi': int, f: int -> nat)
    requires lo <= lo' && hi' <= hi
    ensures Sum(lo', hi', f) <= Sum(lo, hi, f)
  {
    if lo' < hi' {
      SumSplit(lo, lo', hi, f);
      SumSplit(lo', hi', hi, f);
    }
  }

  lemma {:induction false} SumPointwise(lo: int, hi: int, f: int -> nat, g: int -> nat, h: int -> nat)
    requires forall j :: lo <= j < hi ==> f(j) == g(j) + h(j)
    ensures Sum(lo, hi, f) == Sum(lo, hi, g) + Sum(lo, hi, h)
    decreases hi - lo
  {
    if hi > lo {
      SumPointwise(lo, hi - 1, f, g, h);
    }
  }

  /** j |-> f(j - 1) */
  function Shift(f: int -> nat): int -> nat {
    j => f(j - 1)
  }

  lemma {:induction false} SumShift(lo: int, hi: int, f: int -> nat)
    ensures Sum(lo, hi, Shift(f)) == Sum(lo - 1, hi - 1, f)
    decreases hi - lo
  {
    if hi > lo {
      SumShift(lo, hi - 1, f);
    }
  }

  /** j |-> C(n, j) */
  function RowTerm(n: nat): int -> nat {
    j => Binom(n, j)
  }

  /** Pascal's rule summed over a range. */
  lemma RowPascal(n: nat, lo: int, hi: int)
    requires n >= 1
    ensures Sum(lo, hi, RowTerm(n)) == Sum(lo - 1, hi - 1, RowTerm(n - 1)) + Sum(lo, hi, RowTerm(n - 1))
  {
    forall j | lo <= j < hi
      ensures RowTerm(n)(j) == Shift(RowTerm(n - 1))(j) + RowTerm(n - 1)(j)
    {
      Pascal(n, j);
    }
    SumPointwise(lo, hi, RowTerm(n), Shift(RowTerm(n - 1)), RowTerm(n - 1));
    SumShift(lo, hi, RowTerm(n - 1));
  }

  /** The binomial row sum: C(n, 0) + ... + C(n, n) == 2^n, over any range
      that covers 0..n. */
  lemma {:induction false} RowSum(n: nat, lo: int, hi: int)
    requires lo <= 0 && n < hi
    ensures Sum(lo, hi, RowTerm(n)) == Pow2(n)
    decreases n
  {
    if n == 0 {
      SumOne(lo, hi, RowTerm(0), 0);
    } else {
      RowSum(n - 1, lo - 1, hi - 1);
      RowSum(n - 1, lo, hi);
      RowPascal(n, lo, hi);
    }
  }

  /** Any window of a binomial row sums to at most 2^n. */
  lemma RowTail(n: nat, lo: int, hi: int)
    requires 0 <= lo && hi <= n + 1
    ensures Sum(lo, hi, RowTerm(n)) <= Pow2(n)
  {
    SumWindow(0, n + 1, lo, hi, RowTerm(n));
    RowSum(n, 0, n + 1);
  }

  /** x * y, written as repeated addition so that sums of products stay
      within linear arithmetic. */
  function Mul(x: nat, y: nat): nat {
    if x == 0 then 0 else y + Mul(x - 1, y)
  }

  lemma {:induction false} MulIsProduct(x: nat, y: nat)
    ensures Mul(x, y) == x * y
  {
    if x > 0 {
      MulIsProduct(x - 1, y);
    }
  }

  lemma {:induction false} MulDistrib(x1: nat, x2: nat, y: nat)
    ensures Mul(x1 + x2, y) == Mul(x1, y) + Mul(x2, y)
    decreases x1
  {
    if x1 > 0 {
      MulDistrib(x1 - 1, x2, y);
      assert x1 + x2 - 1 == (x1 - 1) + x2;
    }
  }

  /** C(a, j) * C(b, n - j) */
  function ConvTerm(a: nat, b: nat, n: int, j: int): nat {
    Mul(Binom(a, j), Binom(b, n - j))
  }

  /** ConvTerm(a, b, n, lo) + ... + ConvTerm(a, b, n, hi - 1), and 0 when hi <= lo. */
  function Conv(a: nat, b: nat, n: int, lo: int, hi: int): nat
    decreases hi - lo
  {
    if hi <= lo then 0 else Conv(a, b, n, lo, hi - 1) + ConvTerm(a, b, n, hi - 1)
  }

  lemma {:induction false} ConvSplit(a: nat, b: nat, n: int, lo: int, mid: int, hi: int)
    requires lo <= mid <= hi
    ensures Conv(a, b, n, lo, hi) == Conv(a, b, n, lo, mid) + Conv(a, b, n, mid, hi)
    decreases hi - mid
  {
    if hi > mid {
      ConvSplit(a, b, n, lo, mid, hi - 1);
    }
  }

  /** A sub-range of the convolution sums to at most the whole range. */
  lemma ConvWindow(a: nat, b: nat, n: int, lo: int, hi: int, lo': int, hi': int)
    requires lo <= lo' && hi' <= hi
    ensures Conv(a, b, n, lo', hi') <= Conv(a, b, n, lo, hi)
  {
    if lo' < hi' {
      ConvSplit(a, b, n, lo, lo', hi);
      ConvSplit(a, b, n, lo', hi', hi);
    }
  }

  /** Pascal's rule on the first factor of one term. */
  lemma ConvPascalAt(a: nat, b: nat, n: int, j: int)
    requires a >= 1
    ensures ConvTerm(a, b, n, j) == ConvTerm(a - 1, b, n - 1, j - 1) + ConvTerm(a - 1, b, n, j)
  {
    Pascal(a, j);
    assert n - 1 - (j - 1) == n - j;
    MulDistrib(Binom(a - 1, j - 1), Binom(a - 1, j), Binom(b, n - j));
  }

  /** Pascal's rule on the first factor, summed over a range. */
  lemma {:induction false} ConvPascal(a: nat, b: nat, n: int, lo: int, hi: int)
    requires a >= 1
    ensures Conv(a, b, n, lo, hi) == Conv(a - 1, b, n - 1, lo - 1, hi - 1) + Conv(a - 1, b, n, lo, hi)
    decreases hi - lo
  {
    if hi > lo {
      ConvPascal(a, b, n, lo, hi - 1);
      ConvPascalAt(a, b, n, hi - 1);
    }
  }

  /** With an empty first row only the term j = 0 survives. */
  lemma {:induction false} ConvEmptyRow(b: nat, n: int, lo: int, hi: int)
    ensures Conv(0, b, n, lo, hi) == if lo <= 0 < hi then Binom(b, n) else 0
    decreases hi - lo
  {
    if hi > lo {
      ConvEmptyRow(b, n, lo, hi - 1);
      if hi - 1 == 0 {
        assert Binom(0, 0) == 1;
        assert Mul(1, Binom(b, n)) == Binom(b, n) + Mul(0, Binom(b, n));
      } else {
        assert Binom(0, hi - 1) == 0;
      }
    }
  }

  /** Vandermonde's identity: the sum over j of C(a, j) * C(b, n - j) is
      C(a + b, n), over any range that covers 0..a. */
  lemma {:induction false} Vandermonde(a: nat, b: nat, n: int, lo: int, hi: int)
    requires lo <= 0 && a < hi
    ensures Conv(a, b, n, lo, hi) == Binom(a + b, n)
    decreases a
  {
    if a == 0 {
      ConvEmptyRow(b, n, lo, hi);
    } else {
      Vandermonde(a - 1, b, n - 1, lo - 1, hi - 1);
      Vandermonde(a - 1, b, n, lo, hi);
      ConvPascal(a, b, n, lo, hi);
      Pascal(a + b, n);
    }
  }
}
