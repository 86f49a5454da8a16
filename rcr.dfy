/** The reverse-causal-reasoning object of src/mechanrich/mechanrich.py:
    `RCR` builds the KAM network and its causal-inference tables, and its
    subclass `RCRstat` adds the concordance and richness dictionaries. Both
    are modelled by one class whose fields are filled in by the same steps,
    in the same order, as the two constructors run. */
module Mechanrich {
  import opened Wrappers
  import opened Genes
  import opened Reader
  import opened Kam
  import opened Inference
  import opened Scores
  import opened Enrichment

  /** The number of genes in `genes` that are up- or down-regulated (the
      loop that computes `m` in `_cal_concordance` and `_cal_richness`). */
  method RegulatedCount(genes: seq<Gene>, up: seq<Gene>, down: seq<Gene>) returns (m: nat)
    ensures m == CountRegulated(genes, up, down)
  {
    m := 0;
    var i := 0;
    while i < |genes|
      invariant 0 <= i <= |genes|
      invariant m == CountRegulated(genes[..i], up, down)
    {
      if genes[i] in up || genes[i] in down {
        m := m + 1;
      }
      PrefixStep(genes, i);
      i := i + 1;
    }
    assert genes[..i] == genes;
  }

  /** The body of `_derive_kam_from_pathway`: build the undirected network
      from the rows, then visit every node and each of its neighbours in
      order and overwrite the relation of the edge with "ambiguous" when
      the (node, neighbour) pair is among the repeated pairs. */
  method KamNetwork(rows: seq<Edge>) returns (kam: Graph)
    ensures kam == KamOf(rows) && WellFormed(kam)
  {
    var g0 := FromEdgeList(rows);
    var dups := AmbiguousEdges(rows);
    kam := MarkAmbiguous(g0, dups);
    MarkComplete(rows, MetPairs(g0, dups, g0.nodes));
    KamWellFormed(rows);
  }

  /** The two nested loops of `_derive_kam_from_pathway`: every node in
      order, and every neighbour of it in order. Exactly the repeated pairs
      (node, neighbour) of `dups` that the loops meet get their edge marked. */
  method MarkAmbiguous(g0: Graph, dups: seq<(Gene, Gene)>) returns (kam: Graph)
    requires WellFormed(g0)
    ensures kam == Mark(g0, MetPairs(g0, dups, g0.nodes))
  {
    kam := g0;
    assert Mark(g0, {}).rel == g0.rel;
    assert MetPairs(g0, dups, g0.nodes[..0]) == {};
    var i := 0;
    while i < |g0.nodes|
      invariant 0 <= i <= |g0.nodes|
      invariant kam == Mark(g0, MetPairs(g0, dups, g0.nodes[..i]))
      decreases |g0.nodes| - i
    {
      kam := MarkNeighbours(g0, dups, kam, g0.nodes[..i], g0.nodes[i]);
      PrefixStep(g0.nodes, i);
      i := i + 1;
    }
    assert g0.nodes[..i] == g0.nodes;
  }

  /** The inner loop of `_derive_kam_from_pathway` for one node: every
      neighbour `nbr` of `node`, in order, whose pair (node, nbr) is among
      the repeated pairs `dups` has the relation of its edge overwritten
      with "ambiguous". The nodes in `visited` were handled before. */
  method MarkNeighbours(g0: Graph, dups: seq<(Gene, Gene)>, g: Graph, ghost visited: seq<Gene>, node: Gene)
    returns (marked: Graph)
    requires WellFormed(g0) && node in g0.adj && g == Mark(g0, MetPairs(g0, dups, visited))
    ensures marked == Mark(g0, MetPairs(g0, dups, visited + [node]))
  {
    var nbrs := g0.adj[node];
    marked := g;
    ghost var flagged := MetPairs(g0, dups, visited);
    assert PairsFrom(node, nbrs[..0], dups) == {};
    var j := 0;
    while j < |nbrs|
      invariant 0 <= j <= |nbrs|
      invariant flagged == MetPairs(g0, dups, visited) + PairsFrom(node, nbrs[..j], dups)
      invariant marked == Mark(g0, flagged)
      decreases |nbrs| - j
    {
      var nbr := nbrs[j];
      PrefixStep(nbrs, j);
      if (node, nbr) in dups {
        assert Adjacent(g0, node, nbr);
        MarkStep(g0, flagged, (node, nbr));
        marked := marked.(rel := marked.rel[{node, nbr} := Some(AMBIGUOUS)]);
        flagged := flagged + {(node, nbr)};
      }
      assert PairsFrom(node, nbrs[..j + 1], dups)
          == PairsFrom(node, nbrs[..j], dups) + (if (node, nbr) in dups then {(node, nbr)} else {});
      j := j + 1;
    }
    assert nbrs[..j] == nbrs;
    MetPairsStep(g0, dups, visited, node);
  }

  /** The first pass over the neighbours `nbr` of `u` in
      `get_causal_inference`: one unclassified entry per neighbour (relation,
      state change, weight), and the running `total_weights`. */
  method RecordNeighbours(g: Graph, up: seq<Gene>, down: seq<Gene>, u: Gene, nbr: seq<Gene>)
    returns (total: int, es: seq<Entry>)
    requires HasEdges(g, u, nbr)
    ensures |es| == |nbr|
    ensures forall t :: 0 <= t < |nbr| ==> es[t] == Unclassified(g, up, down, u, nbr[t])
    ensures total == TotalWeight(g, up, down, u, nbr)
  {
    es := [];
    total := 0;
    var j := 0;
    while j < |nbr|
      invariant 0 <= j <= |nbr| && |es| == j
      invariant forall t :: 0 <= t < j ==> es[t] == Unclassified(g, up, down, u, nbr[t])
      invariant total == TotalWeight(g, up, down, u, nbr[..j])
    {
      var b := nbr[j];
      var causalRel := g.rel[{u, b}];
      var stateChange := WhichStateChange(b, up, down);
      var weight := CausalInference(stateChange, causalRel);
      es := es + [Entry(b, causalRel, stateChange, weight, None)];
      if stateChange.Some? {
        total := total + weight.value;
      }
      PrefixStep(nbr, j);
      j := j + 1;
    }
    assert nbr[..j] == nbr;
  }

  /** The second pass: every entry classified against the net weight
      `total` (correct, contrast, ambiguous, or none without a state
      change). */
  method ClassifyEntries(es: seq<Entry>, total: int) returns (cs: seq<Entry>)
    ensures |cs| == |es|
    ensures forall t :: 0 <= t < |es| ==> cs[t] == es[t].(kind := Classify(es[t].stateChange, total))
  {
    cs := es;
    var j := 0;
    while j < |es|
      invariant 0 <= j <= |es| && |cs| == |es|
      invariant forall t :: 0 <= t < j ==> cs[t] == es[t].(kind := Classify(es[t].stateChange, total))
      invariant forall t :: j <= t < |es| ==> cs[t] == es[t]
    {
      var st := cs[j].stateChange;
      var kind: Option<Kind>;
      if st.None? {
        kind := None;
      } else if total > 0 && st == Some(Increase) {
        kind := Some(Correct);
      } else if total > 0 && st == Some(Decrease) {
        kind := Some(Contrast);
      } else if total < 0 && st == Some(Decrease) {
        kind := Some(Correct);
      } else if total < 0 && st == Some(Increase) {
        kind := Some(Contrast);
      } else {
        kind := Some(Ambiguous);
      }
      cs := cs[j := cs[j].(kind := kind)];
      j := j + 1;
    }
  }

  /** The body of the loop of `get_causal_inference` for one upstream node
      `u`: a first pass over its neighbours records relation, state change
      and weight of each and accumulates `total_weights`; a second pass
      classifies each neighbour against that total. */
  method InferUpstream(g: Graph, up: seq<Gene>, down: seq<Gene>, u: Gene, nbr: seq<Gene>)
    returns (total: int, es: seq<Entry>)
    requires WellFormed(g) && u in g.adj && nbr == g.adj[u]
    ensures total == WeightTable(g, up, down)[u]
    ensures es == InferTable(g, up, down)[u]
  {
    NeighbourEdges(g, u);
    var records;
    total, records := RecordNeighbours(g, up, down, u, nbr);
    es := ClassifyEntries(records, total);
    assert forall t :: 0 <= t < |es| ==> es[t] == HypTable(g, up, down, u)[t];
  }

  /** The counters `n`, `l` and `k` of one hypothesis table in
      `_cal_concordance`: entries with a state change, entries classified
      ambiguous, entries classified correct. */
  method ConcordanceCounters(hyp: seq<Entry>) returns (n: nat, l: nat, k: nat)
    ensures n == CountStated(hyp) && l == CountKind(hyp, Ambiguous) && k == CountKind(hyp, Correct)
  {
    n, l, k := 0, 0, 0;
    var j := 0;
    while j < |hyp|
      invariant 0 <= j <= |hyp|
      invariant n == CountStated(hyp[..j]) && l == CountKind(hyp[..j], Ambiguous) && k == CountKind(hyp[..j], Correct)
    {
      if hyp[j].stateChange.Some? {
        n := n + 1;
      }
      if hyp[j].kind == Some(Correct) {
        k := k + 1;
      }
      if hyp[j].kind == Some(Ambiguous) {
        l := l + 1;
      }
      PrefixStep(hyp, j);
      j := j + 1;
    }
    assert hyp[..j] == hyp;
  }

  /** The counter `k` of one hypothesis table in `_cal_richness`: entries
      with a state change. */
  method StatedCounter(hyp: seq<Entry>) returns (k: nat)
    ensures k == CountStated(hyp)
  {
    k := 0;
    var j := 0;
    while j < |hyp|
      invariant 0 <= j <= |hyp|
      invariant k == CountStated(hyp[..j])
    {
      if hyp[j].stateChange.Some? {
        k := k + 1;
      }
      PrefixStep(hyp, j);
      j := j + 1;
    }
    assert hyp[..j] == hyp;
  }

  class Rcr {
    /** The assembled pathway rows and the two regulated-gene lists, read
        once by `__preprocessing`. */
    const pathway: seq<Edge>
    const up: seq<Gene>
    const down: seq<Gene>
    /** `_G`: the KAM network. */
    var g: Graph
    /** `_weights` and `_infer_table`. */
    var weights: map<Gene, int>
    var inferTable: map<Gene, seq<Entry>>
    /** `_concs` and `_richs`. */
    var concs: map<Gene, real>
    var richs: map<Gene, real>

    /** The network is the KAM network of the pathway. */
    ghost predicate Derived()
      reads this`g
    {
      g == KamOf(pathway) && WellFormed(g)
    }

    /** ... and the two causal-inference tables are those of the network. */
    ghost predicate Inferred()
      reads this`g, this`weights, this`inferTable
    {
      Derived() && weights == WeightTable(g, up, down) && inferTable == InferTable(g, up, down)
    }

    /** ... and so are the two statistics dictionaries. */
    ghost predicate Valid()
      reads this`g, this`weights, this`inferTable, this`concs, this`richs
    {
      && Inferred()
      && TablesWithin(inferTable, |g.nodes|)
      && concs == ConcordanceTable(inferTable, CountRegulated(g.nodes, up, down))
      && richs == RichnessTable(inferTable, |g.nodes|, CountRegulated(g.nodes, up, down))
    }

    /** `RCRstat()`: `__preprocessing` (whose inputs are parameters here),
        `_derive_kam_from_pathway`, `get_causal_inference`,
        `_cal_concordance` and `_cal_richness`, in that order. */
    constructor (pathway: seq<Edge>, up: seq<Gene>, down: seq<Gene>)
      ensures this.pathway == pathway && this.up == up && this.down == down
      ensures Valid()
    {
      this.pathway := pathway;
      this.up := up;
      this.down := down;
      g := Graph([], map[], map[]);
      weights, inferTable := map[], map[];
      concs, richs := map[], map[];
      new;
      DeriveKam();
      var w, t := GetCausalInference();
      weights, inferTable := w, t;
      assert Inferred();
      InferTableShape(g, up, down);
      concs := CalConcordance();
      assert Inferred();
      richs := CalRichness();
      assert Inferred();
    }

    /** `_derive_kam_from_pathway`: the network field becomes the KAM
        network of the pathway rows. */
    method DeriveKam()
      modifies this`g
      ensures Derived()
    {
      g := KamNetwork(pathway);
    }

    /** `_generate_hyp_networks`: every node with its neighbour list. On
        the KAM network a gene lists another exactly when some row joins
        the two, in either direction. */
    method GenerateHypNetworks() returns (hyps: map<Gene, seq<Gene>>)
      requires Derived()
      ensures forall u :: u in hyps <==> u in g.nodes
      ensures forall u :: u in hyps ==> hyps[u] == g.adj[u]
      ensures forall a, b :: a in hyps && b in hyps[a] <==> Linked(pathway, a, b)
    {
      hyps := map node | node in g.nodes :: g.adj[node];
      KamWellFormed(pathway);
      FromEdgeListAdjacency(pathway);
      assert forall a, b :: a in hyps && b in hyps[a] <==> Adjacent(FromEdgeList(pathway), a, b);
    }

    /** `get_causal_inference`: the weight table and the inference table,
        one entry per node, in node order. */
    method GetCausalInference() returns (weightTable: map<Gene, int>, infer: map<Gene, seq<Entry>>)
      requires WellFormed(g)
      ensures weightTable == WeightTable(g, up, down)
      ensures infer == InferTable(g, up, down)
    {
      var kam := g;
      var nodes := kam.nodes;
      weightTable, infer := map[], map[];
      var i := 0;
      while i < |nodes|
        invariant 0 <= i <= |nodes|
        invariant weightTable.Keys == infer.Keys
        invariant forall v :: v in infer <==> v in nodes[..i]
        invariant forall v :: v in infer ==>
          v in kam.adj && weightTable[v] == WeightTable(kam, up, down)[v] && infer[v] == InferTable(kam, up, down)[v]
      {
        var u := nodes[i];
        var total, es := InferUpstream(kam, up, down, u, kam.adj[u]);
        weightTable := weightTable[u := total];
        infer := infer[u := es];
        PrefixStep(nodes, i);
        i := i + 1;
      }
      assert nodes[..i] == nodes;
      TablesFromEntries(kam, up, down, weightTable, infer);
    }

    /** `_cal_concordance`: `m` over the keys of the inference table (the
        nodes, in node order), then for every key the counters of its
        table and, when `n - l >= k` and `k > 0`, its concordance. */
    method CalConcordance() returns (result: map<Gene, real>)
      requires forall u :: u in inferTable <==> u in g.nodes
      ensures result == ConcordanceTable(inferTable, CountRegulated(g.nodes, up, down))
    {
      var keys := g.nodes;
      var infer := inferTable;
      var m := RegulatedCount(keys, up, down);
      result := map[];
      var i := 0;
      while i < |keys|
        invariant 0 <= i <= |keys|
        invariant forall v :: v in result <==> v in keys[..i] && TableConcordance(infer[v], m).Some?
        invariant forall v :: v in result ==> result[v] == TableConcordance(infer[v], m).value
      {
        var u := keys[i];
        var hyp := infer[u];
        var n, l, k := ConcordanceCounters(hyp);
        if n as int - l >= k && k > 0 {
          result := result[u := Concordance(n, l, k, m).value];
        }
        PrefixStep(keys, i);
        i := i + 1;
      }
      assert keys[..i] == keys;
      ConcordanceTableFromEntries(infer, m, result);
    }

    /** `_cal_richness`: `N` as the size of the inference table, `m` over
        its keys, then for every key the counters of its table and, when
        `n >= k` and `m >= k`, its richness, with the hypergeometric term
        the code intends rather than the one it writes. */
    method CalRichness() returns (result: map<Gene, real>)
      requires Distinct(g.nodes) && forall u :: u in inferTable <==> u in g.nodes
      requires TablesWithin(inferTable, |g.nodes|)
      ensures result == RichnessTable(inferTable, |g.nodes|, CountRegulated(g.nodes, up, down))
    {
      var keys := g.nodes;
      var infer := inferTable;
      var bigN := |infer|;
      MapSize(infer, keys);
      var m := RegulatedCount(keys, up, down);
      result := map[];
      var i := 0;
      while i < |keys|
        invariant 0 <= i <= |keys|
        invariant forall v :: v in result <==> v in keys[..i] && TableRichness(infer[v], bigN, m).Some?
        invariant forall v :: v in result ==> result[v] == TableRichness(infer[v], bigN, m).value
      {
        var u := keys[i];
        var hyp := infer[u];
        var n := |hyp|;
        var k := StatedCounter(hyp);
        if n >= k && m >= k {
          result := result[u := Richness(bigN, m, n, k).value];
        }
        PrefixStep(keys, i);
        i := i + 1;
      }
      assert keys[..i] == keys;
      RichnessTableFromEntries(infer, bigN, m, result);
    }

    /** `get_gene_conc`: the concordance of a gene, or None when it has none
        (including a gene that is not in the network). A node has one
        exactly when some neighbour is classified correct, and it is a
        probability. */
    method GetGeneConc(gene: Gene) returns (r: Option<real>)
      requires Valid()
      ensures gene in g.adj ==> r == ConcordanceOf(g, up, down, gene)
      ensures gene in g.adj ==>
        (r.Some? <==> exists j :: 0 <= j < |g.adj[gene]| && InferTable(g, up, down)[gene][j].kind == Some(Correct))
      ensures r.Some? ==> 0.0 <= r.value <= 1.0
      ensures gene !in g.adj ==> r.None?
    {
      InferTableShape(g, up, down);
      if gene in g.adj {
        ConcordanceExistsIffCorrect(g, up, down, gene);
        ConcordanceOfValue(g, up, down, gene);
      }
      r := if gene in concs then Some(concs[gene]) else None;
    }

    /** `get_gene_rich`: the richness of a gene; every node of the network
        has one, and it lies in [0, 1]. */
    method GetGeneRich(gene: Gene) returns (r: Option<real>)
      requires Valid()
      ensures gene in g.adj ==> r == RichnessOf(g, up, down, gene) && r.Some? && 0.0 <= r.value <= 1.0
      ensures gene !in g.adj ==> r.None?
    {
      InferTableShape(g, up, down);
      if gene in g.adj {
        RichnessAlwaysPresent(g, up, down, gene);
      }
      r := if gene in richs then Some(richs[gene]) else None;
    }

    /** `get_all_genes`: the nodes of the network, each once: exactly the
        genes that are the source or the target of some pathway row. */
    method GetAllGenes() returns (genes: seq<Gene>)
      requires Derived()
      ensures Distinct(genes)
      ensures forall x :: x in genes <==> Endpoint(pathway, x)
    {
      genes := g.nodes;
      KamWellFormed(pathway);
      FromEdgeListNodes(pathway);
    }

    /** `get_relation`: the relation of the edge between two genes, or None
        where the source raises KeyError (not a node, or not a neighbour).
        The lookup is symmetric, and a pair listed twice in the same
        direction reads "ambiguous". */
    method GetRelation(source: Gene, target: Gene) returns (r: Option<Relation>)
      requires Derived()
      ensures r.Some? <==> Adjacent(g, source, target)
      ensures r.Some? ==> r.value == KamOf(pathway).rel[{source, target}]
      ensures r.Some? ==> (multiset(Pairs(pathway))[(source, target)] >= 2 ==> r.value == Some(AMBIGUOUS))
    {
      if source in g.adj && target in g.adj[source] {
        r := Some(g.rel[{source, target}]);
        KamWellFormed(pathway);
        KamRelation(pathway, source, target);
      } else {
        r := None;
      }
    }
  }
}
