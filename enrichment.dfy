/** The counters `RCRstat` (src/mechanrich/mechanrich.py) reads off the
    hypothesis tables, and the concordance and richness of every upstream
    node of a network. The functions here specify the dictionaries that
    `Mechanrich.Rcr.CalConcordance` and `Mechanrich.Rcr.CalRichness` fill in. */
module Enrichment {
  import opened Wrappers
  import opened Genes
  import opened Kam
  import opened Inference
  import opened Scores

  /** The entries that have a state change. */
  function CountStated(es: seq<Entry>): (c: nat)
    ensures c <= |es|
  {
    if es == [] then 0
    else CountStated(es[..|es| - 1]) + (if es[|es| - 1].stateChange.Some? then 1 else 0)
  }

  /** The entries classified as `kd`. */
  function CountKind(es: seq<Entry>, kd: Kind): (c: nat)
    ensures c <= |es|
  {
    if es == [] then 0
    else CountKind(es[..|es| - 1], kd) + (if es[|es| - 1].kind == Some(kd) then 1 else 0)
  }

  /** A count of kind `kd` is positive exactly when some entry has that kind. */
  lemma {:induction false} CountKindPositive(es: seq<Entry>, kd: Kind)
    ensures CountKind(es, kd) > 0 <==> exists j :: 0 <= j < |es| && es[j].kind == Some(kd)
    decreases |es|
  {
    if es != [] {
      var init := es[..|es| - 1];
      CountKindPositive(init, kd);
      if exists j :: 0 <= j < |init| && init[j].kind == Some(kd) {
        var j :| 0 <= j < |init| && init[j].kind == Some(kd);
        assert es[j] == init[j];
      }
      if exists j :: 0 <= j < |es| && es[j].kind == Some(kd) {
        var j :| 0 <= j < |es| && es[j].kind == Some(kd);
        if j < |init| {
          assert init[j] == es[j];
        }
      }
    }
  }

  /** An entry is classified exactly when it has a state change. */
  ghost predicate ClassifiedIffStated(es: seq<Entry>) {
    forall j :: 0 <= j < |es| ==> (es[j].kind.None? <==> es[j].stateChange.None?)
  }

  /** Correct and ambiguous entries are disjoint sets of entries with a
      state change. */
  lemma {:induction false} KindsWithinStated(es: seq<Entry>)
    requires ClassifiedIffStated(es)
    ensures CountKind(es, Correct) + CountKind(es, Ambiguous) <= CountStated(es)
    decreases |es|
  {
    if es != [] {
      var init := es[..|es| - 1];
      assert ClassifiedIffStated(init) by {
        forall j | 0 <= j < |init| ensures init[j].kind.None? <==> init[j].stateChange.None? {
          assert init[j] == es[j];
        }
      }
      KindsWithinStated(init);
      assert es[|es| - 1].kind.None? <==> es[|es| - 1].stateChange.None?;
    }
  }

  lemma HypTableClassified(g: Graph, up: seq<Gene>, down: seq<Gene>, u: Gene)
    requires WellFormed(g) && u in g.adj
    ensures ClassifiedIffStated(HypTable(g, up, down, u))
  {
    var es := HypTable(g, up, down, u);
    forall j | 0 <= j < |es| ensures es[j].kind.None? <==> es[j].stateChange.None? {
      NeighbourEdges(g, u);
      assert es[j].kind == Classify(es[j].stateChange, TotalWeight(g, up, down, u, g.adj[u]));
    }
  }

  lemma {:induction false} CountStatedPrefix(g: Graph, up: seq<Gene>, down: seq<Gene>, u: Gene, j: nat)
    requires WellFormed(g) && u in g.adj && j <= |g.adj[u]|
    ensures CountStated(HypTable(g, up, down, u)[..j]) == CountRegulated(g.adj[u][..j], up, down)
    decreases j
  {
    if j > 0 {
      CountStatedPrefix(g, up, down, u, j - 1);
      var es := HypTable(g, up, down, u);
      var nbrs := g.adj[u];
      assert es[..j][..j - 1] == es[..j - 1];
      assert nbrs[..j][..j - 1] == nbrs[..j - 1];
      NeighbourEdges(g, u);
      assert es[j - 1].stateChange == WhichStateChange(nbrs[j - 1], up, down);
    }
  }

  /** The `n` of concordance (and `k` of richness) is the number of
      neighbours of the upstream node that are up- or down-regulated. */
  lemma StatedNeighbours(g: Graph, up: seq<Gene>, down: seq<Gene>, u: Gene)
    requires WellFormed(g) && u in g.adj
    ensures CountStated(HypTable(g, up, down, u)) == CountRegulated(g.adj[u], up, down)
  {
    var es := HypTable(g, up, down, u);
    CountStatedPrefix(g, up, down, u, |g.adj[u]|);
    assert es[..|es|] == es;
    assert g.adj[u][..|g.adj[u]|] == g.adj[u];
  }

  /** The elements of a sequence. */
  ghost function Elems(s: seq<Gene>): set<Gene> {
    set x | x in s
  }

  /** The regulated elements of a sequence. */
  ghost function RegulatedSet(s: seq<Gene>, up: seq<Gene>, down: seq<Gene>): set<Gene> {
    set x | x in s && WhichStateChange(x, up, down).Some?
  }

  lemma {:induction false} DistinctElems(s: seq<Gene>)
    requires Distinct(s)
    ensures |Elems(s)| == |s|
    decreases |s|
  {
    if s != [] {
      var init := s[..|s| - 1];
      var x := s[|s| - 1];
      assert s == init + [x];
      DistinctElems(init);
      assert x !in init;
      assert Elems(s) == Elems(init) + {x};
    }
  }

  lemma {:induction false} DistinctRegulated(s: seq<Gene>, up: seq<Gene>, down: seq<Gene>)
    requires Distinct(s)
    ensures CountRegulated(s, up, down) == |RegulatedSet(s, up, down)|
    decreases |s|
  {
    if s != [] {
      var init := s[..|s| - 1];
      var x := s[|s| - 1];
      assert s == init + [x];
      DistinctRegulated(init, up, down);
      assert x !in init;
      if WhichStateChange(x, up, down).Some? {
        assert RegulatedSet(s, up, down) == RegulatedSet(init, up, down) + {x};
      } else {
        assert RegulatedSet(s, up, down) == RegulatedSet(init, up, down);
      }
    }
  }

  lemma SubsetCard(a: set<Gene>, b: set<Gene>)
    requires a <= b
    ensures |a| <= |b| && |b - a| == |b| - |a|
  {
    assert b == a + (b - a);
  }

  /** Cardinalities of nested sets: a part `a` of `v` whose regulated part
      `ra` lies within the regulated part `rv` of `v`, and whose other part
      lies within the other part of `v`. */
  lemma NestedCard(a: set<Gene>, v: set<Gene>, ra: set<Gene>, rv: set<Gene>)
    requires a <= v && ra <= a && rv <= v && ra <= rv && a - ra <= v - rv
    ensures |a| <= |v| && |ra| <= |rv| && |a| - |ra| <= |v| - |rv|
  {
    SubsetCard(a, v);
    SubsetCard(ra, rv);
    SubsetCard(ra, a);
    SubsetCard(rv, v);
    SubsetCard(a - ra, v - rv);
  }

  /** The neighbours of a node are nodes. */
  lemma NeighboursAreNodes(g: Graph, u: Gene, up: seq<Gene>, down: seq<Gene>)
    requires WellFormed(g) && u in g.adj
    ensures Elems(g.adj[u]) <= Elems(g.nodes)
    ensures RegulatedSet(g.adj[u], up, down) <= RegulatedSet(g.nodes, up, down)
    ensures Elems(g.adj[u]) - RegulatedSet(g.adj[u], up, down) <= Elems(g.nodes) - RegulatedSet(g.nodes, up, down)
  {
    forall b | b in g.adj[u] ensures b in g.nodes {
      assert Adjacent(g, u, b);
    }
  }

  /** Each counter of a hypothesis network is bounded by the matching counter
      of the whole network: at most `N` neighbours, at most `m` regulated
      ones, and no more unregulated neighbours than unregulated nodes. */
  lemma NeighbourCounts(g: Graph, up: seq<Gene>, down: seq<Gene>, u: Gene)
    requires WellFormed(g) && u in g.adj
    ensures |g.adj[u]| <= |g.nodes|
    ensures CountRegulated(g.adj[u], up, down) <= CountRegulated(g.nodes, up, down)
    ensures |g.adj[u]| - CountRegulated(g.adj[u], up, down) <= |g.nodes| - CountRegulated(g.nodes, up, down)
  {
    var nbrs := g.adj[u];
    DistinctElems(nbrs);
    DistinctElems(g.nodes);
    DistinctRegulated(nbrs, up, down);
    DistinctRegulated(g.nodes, up, down);
    NeighboursAreNodes(g, u, up, down);
    NestedCard(Elems(nbrs), Elems(g.nodes), RegulatedSet(nbrs, up, down), RegulatedSet(g.nodes, up, down));
  }

  /** The concordance of a hypothesis table, from its `n`, `l`, `k` and the
      `m` of its network. */
  function TableConcordance(es: seq<Entry>, m: nat): Option<real> {
    Concordance(CountStated(es), CountKind(es, Ambiguous), CountKind(es, Correct), m)
  }

  /** For a table whose entries are classified exactly when they have a
      state change, and with no more such entries than `m`: the guard
      `n - l >= k` always holds, so a concordance exists exactly when some
      entry is correct, and it is the binomial tail over the `n - l`
      unambiguous entries, a probability. */
  lemma TableConcordanceValue(es: seq<Entry>, m: nat)
    requires ClassifiedIffStated(es) && CountStated(es) <= m
    ensures TableConcordance(es, m).Some? <==> CountKind(es, Correct) > 0
    ensures var a := CountStated(es) - CountKind(es, Ambiguous);
      var k := CountKind(es, Correct);
      TableConcordance(es, m).Some? ==>
        && a >= 0
        && TableConcordance(es, m).value == BinomialTail(a, k)
        && 0.0 <= TableConcordance(es, m).value <= 1.0
  {
    KindsWithinStated(es);
    ConcordanceTail(CountStated(es), CountKind(es, Ambiguous), CountKind(es, Correct), m);
  }

  /** The concordance of `u`. */
  function ConcordanceOf(g: Graph, up: seq<Gene>, down: seq<Gene>, u: Gene): Option<real>
    requires WellFormed(g) && u in g.adj
  {
    TableConcordance(HypTable(g, up, down, u), CountRegulated(g.nodes, up, down))
  }

  /** The facts about a node's table that its concordance relies on. */
  lemma HypTableCounts(g: Graph, up: seq<Gene>, down: seq<Gene>, u: Gene)
    requires WellFormed(g) && u in g.adj
    ensures ClassifiedIffStated(HypTable(g, up, down, u))
    ensures CountStated(HypTable(g, up, down, u)) <= CountRegulated(g.nodes, up, down)
  {
    HypTableClassified(g, up, down, u);
    StatedNeighbours(g, up, down, u);
    NeighbourCounts(g, up, down, u);
  }

  /** The richness of a hypothesis table, from its `n` (its size) and `k`
      and the `N` and `m` of its network. */
  function TableRichness(es: seq<Entry>, bigN: nat, m: nat): Option<real>
    requires m <= bigN && |es| <= bigN
  {
    Richness(bigN, m, |es|, CountStated(es))
  }

  /** The richness of `u`. */
  function RichnessOf(g: Graph, up: seq<Gene>, down: seq<Gene>, u: Gene): Option<real>
    requires WellFormed(g) && u in g.adj
  {
    NeighbourCounts(g, up, down, u);
    TableRichness(HypTable(g, up, down, u), |g.nodes|, CountRegulated(g.nodes, up, down))
  }

  /** `_cal_concordance` on an inference table whose network has `m`
      regulated nodes: the nodes that have a concordance, with it. */
  function ConcordanceTable(infer: map<Gene, seq<Entry>>, m: nat): map<Gene, real> {
    map u | u in infer && TableConcordance(infer[u], m).Some? :: TableConcordance(infer[u], m).value
  }

  /** No hypothesis table is longer than `bigN`. */
  ghost predicate TablesWithin(infer: map<Gene, seq<Entry>>, bigN: nat) {
    forall u :: u in infer ==> |infer[u]| <= bigN
  }

  /** `_cal_richness` on an inference table whose network has `bigN` nodes,
      `m` of them regulated: the nodes that have a richness, with it. */
  function RichnessTable(infer: map<Gene, seq<Entry>>, bigN: nat, m: nat): map<Gene, real>
    requires m <= bigN && TablesWithin(infer, bigN)
  {
    map u | u in infer && TableRichness(infer[u], bigN, m).Some? :: TableRichness(infer[u], bigN, m).value
  }

  /** A map that holds, at exactly the keys with a concordance, that
      concordance is the concordance table. */
  lemma ConcordanceTableFromEntries(infer: map<Gene, seq<Entry>>, m: nat, r: map<Gene, real>)
    requires forall u :: u in r <==> u in infer && TableConcordance(infer[u], m).Some?
    requires forall u :: u in r ==> r[u] == TableConcordance(infer[u], m).value
    ensures r == ConcordanceTable(infer, m)
  {
  }

  /** Likewise for richness. */
  lemma RichnessTableFromEntries(infer: map<Gene, seq<Entry>>, bigN: nat, m: nat, r: map<Gene, real>)
    requires m <= bigN && TablesWithin(infer, bigN)
    requires forall u :: u in r <==> u in infer && TableRichness(infer[u], bigN, m).Some?
    requires forall u :: u in r ==> r[u] == TableRichness(infer[u], bigN, m).value
    ensures r == RichnessTable(infer, bigN, m)
  {
  }

  /** A map keyed by the elements of a sequence without repetition has one
      key per element. */
  lemma MapSize<V>(t: map<Gene, V>, s: seq<Gene>)
    requires Distinct(s) && forall u :: u in t <==> u in s
    ensures |t| == |s|
  {
    DistinctElems(s);
    assert t.Keys == Elems(s);
  }

  /** The inference table of a network has one hypothesis table per node,
      each no longer than the number of nodes. */
  lemma InferTableShape(g: Graph, up: seq<Gene>, down: seq<Gene>)
    requires WellFormed(g)
    ensures forall u :: u in InferTable(g, up, down) <==> u in g.nodes
    ensures forall u :: u in InferTable(g, up, down) ==> InferTable(g, up, down)[u] == HypTable(g, up, down, u)
    ensures |InferTable(g, up, down)| == |g.nodes|
    ensures TablesWithin(InferTable(g, up, down), |g.nodes|)
  {
    var infer := InferTable(g, up, down);
    forall u | u in infer ensures |infer[u]| <= |g.nodes| {
      NeighbourCounts(g, up, down, u);
    }
    MapSize(infer, g.nodes);
  }

  /** The guard `n - l >= k` never fails, so a node has a concordance
      exactly when at least one of its neighbours is classified correct. */
  lemma ConcordanceExistsIffCorrect(g: Graph, up: seq<Gene>, down: seq<Gene>, u: Gene)
    requires WellFormed(g) && u in g.adj
    ensures ConcordanceOf(g, up, down, u).Some? <==>
      exists j :: 0 <= j < |g.adj[u]| && HypTable(g, up, down, u)[j].kind == Some(Correct)
  {
    var es := HypTable(g, up, down, u);
    HypTableCounts(g, up, down, u);
    TableConcordanceValue(es, CountRegulated(g.nodes, up, down));
    CountKindPositive(es, Correct);
  }

  /** Where it exists, the concordance of `u` is the probability that at
      least `k` of the `n - l` unambiguous regulated neighbours would agree
      by chance, each with probability 1/2: the upper limit `min(n - l, m)`
      of the source's sum is always `n - l`. It lies in [0, 1]. */
  lemma ConcordanceOfValue(g: Graph, up: seq<Gene>, down: seq<Gene>, u: Gene)
    requires WellFormed(g) && u in g.adj
    ensures var es := HypTable(g, up, down, u);
      var a := CountStated(es) - CountKind(es, Ambiguous);
      var k := CountKind(es, Correct);
      ConcordanceOf(g, up, down, u).Some? ==>
        && a >= 0
        && ConcordanceOf(g, up, down, u).value == BinomialTail(a, k)
        && 0.0 <= ConcordanceOf(g, up, down, u).value <= 1.0
  {
    HypTableCounts(g, up, down, u);
    TableConcordanceValue(HypTable(g, up, down, u), CountRegulated(g.nodes, up, down));
  }

  /** The richness guard never fails on a network: every node has a
      richness, and it lies in [0, 1]. */
  lemma RichnessAlwaysPresent(g: Graph, up: seq<Gene>, down: seq<Gene>, u: Gene)
    requires WellFormed(g) && u in g.adj
    ensures RichnessOf(g, up, down, u).Some?
    ensures 0.0 <= RichnessOf(g, up, down, u).value <= 1.0
  {
    var es := HypTable(g, up, down, u);
    StatedNeighbours(g, up, down, u);
    NeighbourCounts(g, up, down, u);
    RichnessBounds(|g.nodes|, CountRegulated(g.nodes, up, down), |es|, CountStated(es));
  }

  /** On a network the factorial arguments of the richness term as written
      are never negative (`N - m - n + j >= 0` for every `j >= k`), so the
      literal expression is defined for every node. */
  lemma RichnessAsWrittenDefined(g: Graph, up: seq<Gene>, down: seq<Gene>, u: Gene)
    requires WellFormed(g) && u in g.adj
    ensures var es := HypTable(g, up, down, u);
      var N, m, n, k := |g.nodes|, CountRegulated(g.nodes, up, down), |es|, CountStated(es);
      && m <= N && n <= N && k <= n && k <= m && n - k <= N - m
      && RichnessAsWritten(N, m, n, k).Some?
  {
    StatedNeighbours(g, up, down, u);
    NeighbourCounts(g, up, down, u);
  }
}
