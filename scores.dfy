/** The two enrichment scores of src/mechanrich/mechanrich.py (`RCRstat`),
    as functions of the counters the source computes for one upstream node,
    evaluated in exact rationals. */
module Scores {
  import opened Wrappers
  import opened Combinatorics

  function Min(a: int, b: int): (r: int)
    ensures r <= a && r <= b && (r == a || r == b)
  {
    if a <= b then a else b
  }

  /** The success probability `p` of the concordance null model. */
  const P: real := 0.5

  /** A ratio of naturals whose numerator is at most its positive
      denominator is a probability. */
  lemma RatioBounds(s: nat, d: nat)
    requires s <= d && d > 0
    ensures 0.0 <= (s as real) / (d as real) <= 1.0
  {
  }

  lemma NatProductPositive(x: nat, y: nat)
    requires x >= 1 && y >= 1
    ensures x * y >= 1
  {
  }

  lemma QuotientPositive(x: real, y: real)
    requires x > 0.0 && y > 0.0
    ensures x / y > 0.0
  {
  }

  // ---------------------------------------------------------------------
  // Concordance
  // ---------------------------------------------------------------------

  /** The concordance of one upstream node from its counters: `n` neighbours
      with a state change, `l` of them classified ambiguous, `k` classified
      correct, and `m` regulated genes in the whole graph. It is absent
      unless n - l >= k and k > 0; otherwise it is the sum, for
      j = k .. min(n - l, m), of the terms C(n - l, j) / 2^(n - l). */
  function Concordance(n: nat, l: nat, k: nat, m: nat): (r: Option<real>)
    ensures r.Some? <==> n - l >= k && k > 0
  {
    if n - l >= k && k > 0 then
      var a: nat := n - l;
      Some((Sum(k, Min(a, m) + 1, RowTerm(a)) as real) / (Pow2(a) as real))
    else None
  }

  /** P(X >= k) for X binomial with `a` trials and success probability 1/2:
      (C(a, k) + ... + C(a, a)) / 2^a. */
  function BinomialTail(a: nat, k: nat): real {
    (Sum(k, a + 1, RowTerm(a)) as real) / (Pow2(a) as real)
  }

  /** A concordance, when present, is a probability. */
  lemma ConcordanceBounds(n: nat, l: nat, k: nat, m: nat)
    ensures Concordance(n, l, k, m).Some? ==> 0.0 <= Concordance(n, l, k, m).value <= 1.0
  {
    if n - l >= k && k > 0 {
      var a: nat := n - l;
      var hi := Min(a, m) + 1;
      RowTail(a, k, hi);
      RatioBounds(Sum(k, hi, RowTerm(a)), Pow2(a));
    }
  }

  /** When the node's informative neighbours are among the graph's regulated
      genes (n <= m), the summation runs to n - l and the concordance is the
      upper tail P(X >= k) of a binomial X with n - l trials and success
      probability 1/2. */
  lemma ConcordanceBinomialTail(n: nat, l: nat, k: nat, m: nat)
    requires n <= m && n - l >= k && k > 0
    ensures Concordance(n, l, k, m) == Some(BinomialTail(n - l, k))
  {
    assert Min(n - l, m) == n - l;
  }

  /** With no more unambiguous regulated neighbours than regulated nodes,
      a concordance that exists is the binomial tail and a probability. */
  lemma ConcordanceTail(n: nat, l: nat, k: nat, m: nat)
    requires n <= m
    ensures Concordance(n, l, k, m).Some? ==>
      && n - l >= 0
      && Concordance(n, l, k, m).value == BinomialTail(n - l, k)
      && 0.0 <= Concordance(n, l, k, m).value <= 1.0
  {
    if n - l >= k && k > 0 {
      ConcordanceBinomialTail(n, l, k, m);
      ConcordanceBounds(n, l, k, m);
    }
  }

  /** Upstream A with neighbours B and C, both regulated and both informative
      (n = 2, l = 0), one of them correct (k = 1), m = 2: the concordance is
      C(2,1)/4 + C(2,2)/4 = 0.75. */
  lemma ConcordanceExample()
    ensures Concordance(2, 0, 1, 2) == Some(0.75)
  {
    assert RowTerm(2)(1) == 2 && RowTerm(2)(2) == 1;
    assert Sum(1, 1, RowTerm(2)) == 0;
    assert Sum(1, 2, RowTerm(2)) == 2;
    assert Sum(1, 3, RowTerm(2)) == 3;
    assert Pow2(2) == 4;
  }

  /** x^e for a real base, as Python's `**` with a natural exponent. */
  function RealPow(x: real, e: nat): real {
    if e == 0 then 1.0 else x * RealPow(x, e - 1)
  }

  /** (1/2)^e == 1 / 2^e. */
  lemma {:induction false} HalfPow(e: nat)
    ensures RealPow(P, e) == 1.0 / (Pow2(e) as real)
    decreases e
  {
    if e > 0 {
      HalfPow(e - 1);
      assert (Pow2(e) as real) == 2.0 * (Pow2(e - 1) as real);
    }
  }

  /** f / d * pu * pv: the shape of a concordance term. */
  function Scaled(f: nat, d: nat, pu: real, pv: real): real
    requires d >= 1
  {
    (f as real) / (d as real) * pu * pv
  }

  /** The algebra that turns the written term into a binomial over a power
      of two: from b x y == f, u v == w, pu == 1/u and pv == 1/v follows
      f / (x y) * pu * pv == b / w. */
  lemma TermAlgebra(f: nat, b: nat, x: nat, y: nat, d: nat, u: nat, v: nat, w: nat, pu: real, pv: real)
    requires x >= 1 && y >= 1 && u >= 1 && v >= 1 && d == x * y
    requires b * x * y == f && u * v == w
    requires pu == 1.0 / (u as real) && pv == 1.0 / (v as real)
    ensures d >= 1 && Scaled(f, d, pu, pv) == (b as real) / (w as real)
  {
    NatProductPositive(x, y);
    NatProductPositive(u, v);
    assert (f as real) == (b as real) * (d as real);
    assert (f as real) / (d as real) == b as real;
    assert (w as real) == (u as real) * (v as real);
  }

  /** (s + t) / d == s / d + t / d. */
  lemma DivAdd(s: real, t: real, d: real)
    requires d > 0.0
    ensures (s + t) / d == s / d + t / d
  {
  }

  /** One concordance term exactly as mechanrich.py:168-171 writes it, for
      a = n - l: a! / (j! (a - j)!) * p^j * (1 - p)^(a - j). */
  function ConcordanceTermAsWritten(a: nat, j: nat): real
    requires j <= a
  {
    NatProductPositive(Fact(j), Fact(a - j));
    Scaled(Fact(a), Fact(j) * Fact(a - j), RealPow(P, j), RealPow(1.0 - P, a - j))
  }

  /** The written term is C(a, j) / 2^a. */
  lemma ConcordanceTermBinomial(a: nat, j: nat)
    requires j <= a
    ensures ConcordanceTermAsWritten(a, j) == (Binom(a, j) as real) / (Pow2(a) as real)
  {
    assert RealPow(1.0 - P, a - j) == RealPow(P, a - j) by { assert 1.0 - P == P; }
    BinomFact(a, j);
    Pow2Split(a, j);
    HalfPow(j);
    HalfPow(a - j);
    TermAlgebra(Fact(a), Binom(a, j), Fact(j), Fact(a - j), Fact(j) * Fact(a - j),
                Pow2(j), Pow2(a - j), Pow2(a), RealPow(P, j), RealPow(P, a - j));
  }

  /** The written terms for j = lo .. hi - 1. */
  function ConcordanceSumAsWritten(a: nat, lo: nat, hi: int): real
    requires hi <= a + 1
    decreases hi - lo
  {
    if hi <= lo then 0.0
    else ConcordanceSumAsWritten(a, lo, hi - 1) + ConcordanceTermAsWritten(a, hi - 1)
  }

  /** A sum of written terms is the matching part of the binomial row over 2^a. */
  lemma {:induction false} ConcordanceSumBinomial(a: nat, lo: nat, hi: int)
    requires hi <= a + 1
    ensures ConcordanceSumAsWritten(a, lo, hi) == (Sum(lo, hi, RowTerm(a)) as real) / (Pow2(a) as real)
    decreases hi - lo
  {
    if hi > lo {
      ConcordanceSumBinomial(a, lo, hi - 1);
      ConcordanceTermBinomial(a, hi - 1);
      assert RowTerm(a)(hi - 1) == Binom(a, hi - 1);
      DivAdd(Sum(lo, hi - 1, RowTerm(a)) as real, Binom(a, hi - 1) as real, Pow2(a) as real);
    }
  }

  /** `_cal_concordance` for one node as written: the same guard and range
      as `Concordance`, with the factorial and power term of the code. */
  function ConcordanceAsWritten(n: nat, l: nat, k: nat, m: nat): (r: Option<real>)
    ensures r.Some? <==> n - l >= k && k > 0
  {
    if n - l >= k && k > 0 then
      var a: nat := n - l;
      Some(ConcordanceSumAsWritten(a, k, Min(a, m) + 1))
    else None
  }

  /** The code's concordance and the binomial form are the same number. */
  lemma ConcordanceAsWrittenAgrees(n: nat, l: nat, k: nat, m: nat)
    ensures ConcordanceAsWritten(n, l, k, m) == Concordance(n, l, k, m)
  {
    if n - l >= k && k > 0 {
      var a: nat := n - l;
      ConcordanceSumBinomial(a, k, Min(a, m) + 1);
    }
  }

  // ---------------------------------------------------------------------
  // Richness
  // ---------------------------------------------------------------------

  /** The richness of one upstream node: the hypergeometric upper tail
      sum_{j = k}^{min(n, m)} C(m, j) * C(N - m, n - j) / C(N, n), the
      probability of at least `k` regulated genes among `n` drawn without
      replacement from `N` genes of which `m` are regulated. Absent unless
      n >= k and m >= k. */
  function Richness(N: nat, m: nat, n: nat, k: nat): (r: Option<real>)
    requires m <= N && n <= N
    ensures r.Some? <==> n >= k && m >= k
  {
    if n >= k && m >= k then Some((Conv(m, N - m, n, k, Min(n, m) + 1) as real) / (Binom(N, n) as real))
    else None
  }

  /** A richness, when present, is a probability: the tail is part of
      Vandermonde's sum C(m, 0) C(N - m, n) + ... + C(m, m) C(N - m, n - m) = C(N, n). */
  lemma RichnessBounds(N: nat, m: nat, n: nat, k: nat)
    requires m <= N && n <= N
    ensures Richness(N, m, n, k).Some? ==> 0.0 <= Richness(N, m, n, k).value <= 1.0
  {
    if n >= k && m >= k {
      var hi := Min(n, m) + 1;
      ConvWindow(m, N - m, n, 0, m + 1, k, hi);
      Vandermonde(m, N - m, n, 0, m + 1);
      assert m + (N - m) == N;
      RatioBounds(Conv(m, N - m, n, k, hi), Binom(N, n));
    }
  }

  /** Upstream A with regulated neighbours B and C in a graph of N = 3 genes,
      m = 2 of them regulated: richness C(2,2) * C(1,0) / C(3,2) = 1/3. */
  lemma RichnessExample()
    ensures Richness(3, 2, 2, 2) == Some(1.0 / 3.0)
  {
    RichnessExampleCounts();
  }

  /** In that graph there is C(2,2) * C(1,0) = 1 favourable draw out of C(3,2) = 3. */
  lemma RichnessExampleCounts()
    ensures Conv(2, 1, 2, 2, 3) == 1 && Binom(3, 2) == 3
  {
    assert Binom(2, 2) == 1 && Binom(1, 0) == 1;
    assert Binom(3, 2) == 3 by {
      assert Binom(2, 1) == 2;
    }
  }

  /** One richness term exactly as mechanrich.py:200-202 writes it:
      (j! / (m! (m - j)!)) * ((n - j)! / ((N - m)! (N - m - n + j)!)) / (n! / (N! (N - n)!)).
      Every factorial argument must be non-negative, as Python's `factorial`
      demands. */
  function RichnessTermAsWritten(N: nat, m: nat, n: nat, j: nat): real
    requires j <= m && j <= n && m <= N && n <= N && n - j <= N - m
  {
    NatProductPositive(Fact(m), Fact(m - j));
    NatProductPositive(Fact(N - m), Fact(N - m - n + j));
    NatProductPositive(Fact(N), Fact(N - n));
    QuotientPositive(Fact(n) as real, (Fact(N) * Fact(N - n)) as real);
    (Fact(j) as real) / ((Fact(m) * Fact(m - j)) as real)
    * ((Fact(n - j) as real) / ((Fact(N - m) * Fact(N - m - n + j)) as real))
    / ((Fact(n) as real) / ((Fact(N) * Fact(N - n)) as real))
  }

  /** The written terms for j = lo .. hi - 1. */
  function RichnessSumAsWritten(N: nat, m: nat, n: nat, lo: nat, hi: int): real
    requires hi <= Min(n, m) + 1 && m <= N && n <= N && n - lo <= N - m
    decreases hi - lo
  {
    if hi <= lo then 0.0
    else RichnessSumAsWritten(N, m, n, lo, hi - 1) + RichnessTermAsWritten(N, m, n, hi - 1)
  }

  /** `_cal_richness` as written: same guard and range as `Richness`, with
      the written term. */
  function RichnessAsWritten(N: nat, m: nat, n: nat, k: nat): (r: Option<real>)
    requires m <= N && n <= N
    requires n >= k && m >= k ==> n - k <= N - m
    ensures r.Some? <==> n >= k && m >= k
  {
    if n >= k && m >= k then Some(RichnessSumAsWritten(N, m, n, k, Min(n, m) + 1)) else None
  }

  /** In the same three-gene graph the written formula yields 3, which is
      not a probability, while the hypergeometric tail is 1/3. */
  lemma RichnessAsWrittenExceedsOne()
    ensures RichnessAsWritten(3, 2, 2, 2) == Some(3.0)
    ensures Richness(3, 2, 2, 2) == Some(1.0 / 3.0)
  {
    assert Fact(2) == 2 && Fact(3) == 6;
    assert RichnessTermAsWritten(3, 2, 2, 2) == 3.0;
    RichnessExample();
  }
}
