/** Reverse causal inference over the KAM network
    (src/mechanrich/mechanrich.py, `RCR`): the per-edge sign table, the net
    weight of every upstream node, and the classification of each of its
    neighbours against that net weight. The functions here specify the
    tables that `Mechanrich.Rcr.GetCausalInference` fills in. */
module Inference {
  import opened Wrappers
  import opened Genes
  import opened Kam
  import PreProcessing

  /** Classification of a downstream prediction ("type"); `None` is unclassified. */
  datatype Kind = Correct | Contrast | Ambiguous

  /** One row of a hypothesis table: the downstream gene, the edge relation,
      the gene's state change, the edge weight and the classification. */
  datatype Entry = Entry(target: Gene, causalRel: Relation, stateChange: Option<State>, weight: Option<int>, kind: Option<Kind>)

  /** `__which_state_change`: membership in the up list wins over the down list. */
  function WhichStateChange(gene: Gene, up: seq<Gene>, down: seq<Gene>): (r: Option<State>)
    ensures r == Some(Increase) <==> gene in up
    ensures r == Some(Decrease) <==> gene !in up && gene in down
    ensures r.None? <==> gene !in up && gene !in down
  {
    if gene in up then Some(Increase)
    else if gene in down then Some(Decrease)
    else None
  }

  /** Expression-level partner of `WhichStateChange`: for a snapshot with unique
      symbols and a non-negative fold-change threshold, the state read off
      the two thresholded lists is the record's own classification. */
  lemma StateOfRecord(genes: seq<PreProcessing.GeneRecord>, pThred: real, fcThred: real, i: nat)
    requires i < |genes|
    requires PreProcessing.UniqueSymbols(genes) && fcThred >= 0.0
    ensures var st := WhichStateChange(genes[i].symbol,
                                       PreProcessing.Regulated(genes, pThred, fcThred, Increase),
                                       PreProcessing.Regulated(genes, pThred, fcThred, Decrease));
      && (st == Some(Increase) <==> PreProcessing.Passes(genes[i], pThred, fcThred, Increase))
      && (st == Some(Decrease) <==> PreProcessing.Passes(genes[i], pThred, fcThred, Decrease))
      && (st.None? <==> !PreProcessing.Passes(genes[i], pThred, fcThred, Increase) &&
                        !PreProcessing.Passes(genes[i], pThred, fcThred, Decrease))
  {
    var x := genes[i].symbol;
    PreProcessing.PassesExclusive(genes[i], pThred, fcThred);
    PreProcessing.UpDownDisjoint(genes, pThred, fcThred, x);
  }

  /** `__causal_inference`: the weight an edge lends to its upstream node. */
  function CausalInference(state: Option<State>, rel: Relation): (w: Option<int>)
    ensures w.None? <==> state.None?
    ensures w.Some? ==> -1 <= w.value <= 1
    ensures w == Some(1) <==>
      (state == Some(Increase) && rel == Some(ACTIVATION)) || (state == Some(Decrease) && rel == Some(INHIBITION))
    ensures w == Some(-1) <==>
      (state == Some(Decrease) && rel == Some(ACTIVATION)) || (state == Some(Increase) && rel == Some(INHIBITION))
    ensures w == Some(0) <==> state.Some? && rel != Some(ACTIVATION) && rel != Some(INHIBITION)
  {
    match state
    case None => None
    case Some(Increase) =>
      if rel == Some(ACTIVATION) then Some(1) else if rel == Some(INHIBITION) then Some(-1) else Some(0)
    case Some(Decrease) =>
      if rel == Some(ACTIVATION) then Some(-1) else if rel == Some(INHIBITION) then Some(1) else Some(0)
  }

  /** +1 for an increase, -1 for a decrease. */
  function Direction(s: State): int {
    match s
    case Increase => 1
    case Decrease => -1
  }

  /** The sign table is antisymmetric in the state change: flipping the
      observed direction flips the edge weight. */
  lemma CausalInferenceFlips(rel: Relation)
    ensures CausalInference(Some(Increase), rel).value == -CausalInference(Some(Decrease), rel).value
  {
  }

  /** The classification ("type") of a neighbour with the given state change,
      judged against the upstream node's total weight. */
  function Classify(state: Option<State>, total: int): (k: Option<Kind>)
    ensures k.None? <==> state.None?
    ensures k == Some(Ambiguous) <==> state.Some? && total == 0
    ensures k == Some(Correct) <==>
      (total > 0 && state == Some(Increase)) || (total < 0 && state == Some(Decrease))
    ensures k == Some(Contrast) <==>
      (total > 0 && state == Some(Decrease)) || (total < 0 && state == Some(Increase))
  {
    match state
    case None => None
    case Some(Increase) =>
      if total > 0 then Some(Correct) else if total < 0 then Some(Contrast) else Some(Ambiguous)
    case Some(Decrease) =>
      if total < 0 then Some(Correct) else if total > 0 then Some(Contrast) else Some(Ambiguous)
  }

  /** A neighbour is correct when its direction agrees with the sign of the
      total, contrast when it disagrees, and ambiguous when the total is 0. */
  lemma ClassifyBySign(s: State, total: int)
    ensures Classify(Some(s), total) == Some(Correct) <==> Direction(s) * total > 0
    ensures Classify(Some(s), total) == Some(Contrast) <==> Direction(s) * total < 0
    ensures Classify(Some(s), total) == Some(Ambiguous) <==> Direction(s) * total == 0
  {
  }

  /** Every neighbour of `u` has an edge relation. */
  ghost predicate HasEdges(g: Graph, u: Gene, nbrs: seq<Gene>) {
    forall b :: b in nbrs ==> {u, b} in g.rel
  }

  lemma NeighbourEdges(g: Graph, u: Gene)
    requires WellFormed(g) && u in g.adj
    ensures HasEdges(g, u, g.adj[u])
  {
    forall b | b in g.adj[u] ensures {u, b} in g.rel {
      assert Adjacent(g, u, b);
    }
  }

  /** The table entry for neighbour `b` of `u` before classification. */
  function Unclassified(g: Graph, up: seq<Gene>, down: seq<Gene>, u: Gene, b: Gene): (e: Entry)
    requires {u, b} in g.rel
  {
    var st := WhichStateChange(b, up, down);
    Entry(b, g.rel[{u, b}], st, CausalInference(st, g.rel[{u, b}]), None)
  }

  /** What neighbour `b` adds to the running total: its weight when it has a
      state change, nothing otherwise. */
  function Contribution(e: Entry): int {
    if e.stateChange.Some? && e.weight.Some? then e.weight.value else 0
  }

  /** The net weight of `u` over the neighbours `nbrs`. */
  function TotalWeight(g: Graph, up: seq<Gene>, down: seq<Gene>, u: Gene, nbrs: seq<Gene>): int
    requires HasEdges(g, u, nbrs)
  {
    if nbrs == [] then 0
    else TotalWeight(g, up, down, u, nbrs[..|nbrs| - 1]) + Contribution(Unclassified(g, up, down, u, nbrs[|nbrs| - 1]))
  }

  /** The number of genes in `s` that are up- or down-regulated. */
  function CountRegulated(s: seq<Gene>, up: seq<Gene>, down: seq<Gene>): (c: nat)
    ensures c <= |s|
  {
    if s == [] then 0
    else CountRegulated(s[..|s| - 1], up, down) + (if WhichStateChange(s[|s| - 1], up, down).Some? then 1 else 0)
  }

  /** The net weight is bounded by the number of neighbours with a state
      change, hence by the number of neighbours. */
  lemma {:induction false} TotalWeightBound(g: Graph, up: seq<Gene>, down: seq<Gene>, u: Gene, nbrs: seq<Gene>)
    requires HasEdges(g, u, nbrs)
    ensures -(CountRegulated(nbrs, up, down) as int) <= TotalWeight(g, up, down, u, nbrs) <= CountRegulated(nbrs, up, down)
    decreases |nbrs|
  {
    if nbrs != [] {
      TotalWeightBound(g, up, down, u, nbrs[..|nbrs| - 1]);
    }
  }

  /** The hypothesis table of `u`: one entry per neighbour, in neighbour order,
      classified against the total weight of `u`. */
  function HypTable(g: Graph, up: seq<Gene>, down: seq<Gene>, u: Gene): (es: seq<Entry>)
    requires WellFormed(g) && u in g.adj
    ensures |es| == |g.adj[u]|
    ensures forall j :: 0 <= j < |es| ==> es[j].target == g.adj[u][j] && es[j].causalRel == g.rel[{u, g.adj[u][j]}]
  {
    NeighbourEdges(g, u);
    var nbrs := g.adj[u];
    var total := TotalWeight(g, up, down, u, nbrs);
    seq(|nbrs|, j requires 0 <= j < |nbrs| =>
      var e := Unclassified(g, up, down, u, nbrs[j]);
      e.(kind := Classify(e.stateChange, total)))
  }

  /** `weight_table`: the net weight of every node. */
  function WeightTable(g: Graph, up: seq<Gene>, down: seq<Gene>): (w: map<Gene, int>)
    requires WellFormed(g)
    ensures w.Keys == g.adj.Keys
  {
    map u | u in g.adj :: NeighbourEdges(g, u); TotalWeight(g, up, down, u, g.adj[u])
  }

  /** `infer_table`: the hypothesis table of every node. */
  function InferTable(g: Graph, up: seq<Gene>, down: seq<Gene>): (t: map<Gene, seq<Entry>>)
    requires WellFormed(g)
    ensures t.Keys == g.adj.Keys
  {
    map u | u in g.adj :: HypTable(g, up, down, u)
  }

  /** Two tables with one entry per node that agree with the weight table
      and the inference table at every node are those tables. */
  lemma TablesFromEntries(g: Graph, up: seq<Gene>, down: seq<Gene>, w: map<Gene, int>, t: map<Gene, seq<Entry>>)
    requires WellFormed(g)
    requires (forall v :: v in t <==> v in g.nodes) && w.Keys == t.Keys
    requires forall v :: v in t ==> v in g.adj && w[v] == WeightTable(g, up, down)[v] && t[v] == InferTable(g, up, down)[v]
    ensures w == WeightTable(g, up, down) && t == InferTable(g, up, down)
  {
  }

  /** The sum of the weights of the entries that have a state change. */
  function StatedWeightSum(es: seq<Entry>): int {
    if es == [] then 0 else StatedWeightSum(es[..|es| - 1]) + Contribution(es[|es| - 1])
  }

  lemma {:induction false} StatedWeightSumPrefix(g: Graph, up: seq<Gene>, down: seq<Gene>, u: Gene, j: nat)
    requires WellFormed(g) && u in g.adj && j <= |g.adj[u]|
    ensures HasEdges(g, u, g.adj[u][..j])
    ensures StatedWeightSum(HypTable(g, up, down, u)[..j]) == TotalWeight(g, up, down, u, g.adj[u][..j])
    decreases j
  {
    NeighbourEdges(g, u);
    if j > 0 {
      StatedWeightSumPrefix(g, up, down, u, j - 1);
      var es := HypTable(g, up, down, u);
      var nbrs := g.adj[u];
      assert es[..j][..j - 1] == es[..j - 1];
      assert nbrs[..j][..j - 1] == nbrs[..j - 1];
    }
  }

  /** The two tables agree: the weight of `u` is the sum of the weights in its
      hypothesis table over the neighbours that have a state change, and it
      lies between minus and plus the number of such neighbours. */
  lemma WeightTableConsistent(g: Graph, up: seq<Gene>, down: seq<Gene>, u: Gene)
    requires WellFormed(g) && u in g.adj
    ensures WeightTable(g, up, down)[u] == StatedWeightSum(InferTable(g, up, down)[u])
    ensures -(CountRegulated(g.adj[u], up, down) as int) <= WeightTable(g, up, down)[u] <= CountRegulated(g.adj[u], up, down)
  {
    var nbrs := g.adj[u];
    var es := HypTable(g, up, down, u);
    NeighbourEdges(g, u);
    StatedWeightSumPrefix(g, up, down, u, |nbrs|);
    assert nbrs[..|nbrs|] == nbrs;
    assert es[..|nbrs|] == es;
    TotalWeightBound(g, up, down, u, nbrs);
    assert WeightTable(g, up, down)[u] == TotalWeight(g, up, down, u, nbrs);
    assert InferTable(g, up, down)[u] == es;
  }

  /** Every entry of a hypothesis table is classified against the total
      weight of its upstream node: unclassified exactly when the neighbour
      has no state change, and ambiguous exactly when it has one and the
      total is 0. */
  lemma HypTableClassification(g: Graph, up: seq<Gene>, down: seq<Gene>, u: Gene, j: nat)
    requires WellFormed(g) && u in g.adj && j < |g.adj[u]|
    ensures var e := InferTable(g, up, down)[u][j];
      && e.stateChange == WhichStateChange(g.adj[u][j], up, down)
      && e.weight == CausalInference(e.stateChange, e.causalRel)
      && e.kind == Classify(e.stateChange, WeightTable(g, up, down)[u])
      && (e.kind.None? <==> e.stateChange.None?)
      && (e.kind == Some(Ambiguous) <==> e.stateChange.Some? && WeightTable(g, up, down)[u] == 0)
  {
  }
}
