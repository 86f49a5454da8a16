/** The knowledge-assembly (KAM) network: the graph that
    `RCR._derive_kam_from_pathway` (src/mechanrich/mechanrich.py) builds from
    the assembled pathway. `networkx.from_pandas_edgelist` is called without a
    graph type, so the graph is UNDIRECTED: a neighbour list is symmetric and
    the relation of an edge is stored once for the unordered pair, which is
    why it is keyed here by the set {a, b} ({a} for a self-loop). */
module Kam {
  import opened Wrappers
  import opened Genes
  import opened Reader

  /** Nodes in insertion order, neighbour lists in insertion order, and the
      relation attribute of every edge. */
  datatype Graph = Graph(nodes: seq<Gene>, adj: map<Gene, seq<Gene>>, rel: map<set<Gene>, Relation>)

  /** `b` is in the neighbour list of `a`. */
  ghost predicate Adjacent(g: Graph, a: Gene, b: Gene) {
    a in g.adj && b in g.adj[a]
  }

  /** Shape invariant of an undirected simple graph: nodes and neighbour
      lists without repetition, a neighbour list for every node, symmetric
      adjacency, and a relation for every edge. */
  ghost predicate WellFormed(g: Graph) {
    && Distinct(g.nodes)
    && (forall x :: x in g.nodes <==> x in g.adj)
    && (forall a :: a in g.adj ==> Distinct(g.adj[a]))
    && (forall a, b :: Adjacent(g, a, b) ==> Adjacent(g, b, a) && {a, b} in g.rel)
  }

  /** The unordered endpoints of a row. */
  function Ends(e: Edge): set<Gene> {
    {e.source, e.target}
  }

  /** The row joins `a` and `b`, in either direction. */
  predicate Joins(e: Edge, a: Gene, b: Gene) {
    (e.source == a && e.target == b) || (e.source == b && e.target == a)
  }

  /** Some row joins `a` and `b`, in either direction. */
  ghost predicate Linked(rows: seq<Edge>, a: Gene, b: Gene) {
    exists i :: 0 <= i < |rows| && Joins(rows[i], a, b)
  }

  /** `x` is an endpoint of some row. */
  ghost predicate Endpoint(rows: seq<Edge>, x: Gene) {
    exists i :: 0 <= i < |rows| && (rows[i].source == x || rows[i].target == x)
  }

  function AddNode(g: Graph, x: Gene): Graph {
    if x in g.adj then g else Graph(g.nodes + [x], g.adj[x := []], g.rel)
  }

  function AppendNew(s: seq<Gene>, x: Gene): (r: seq<Gene>)
    ensures forall y :: y in r <==> y in s || y == x
    ensures Distinct(s) ==> Distinct(r)
  {
    if x in s then s else s + [x]
  }

  /** `add_edge(s, t)` followed by setting the edge's relation: both endpoints
      become nodes (if new), each joins the other's neighbour list (if not
      there yet), and the relation of {s, t} is overwritten. */
  function AddEdge(g: Graph, s: Gene, t: Gene, r: Relation): Graph
    requires forall x :: x in g.nodes <==> x in g.adj
  {
    var g1 := AddNode(AddNode(g, s), t);
    Graph(g1.nodes, Link(g1.adj, s, t), g1.rel[{s, t} := r])
  }

  /** Each of `s` and `t` joins the other's neighbour list. */
  function Link(adj: map<Gene, seq<Gene>>, s: Gene, t: Gene): map<Gene, seq<Gene>>
    requires s in adj && t in adj
  {
    if s == t then adj[s := AppendNew(adj[s], s)]
    else adj[s := AppendNew(adj[s], t)][t := AppendNew(adj[t], s)]
  }

  lemma LinkFacts(adj: map<Gene, seq<Gene>>, s: Gene, t: Gene)
    requires s in adj && t in adj
    ensures Link(adj, s, t).Keys == adj.Keys
    ensures forall a, b :: a in Link(adj, s, t) && b in Link(adj, s, t)[a] <==>
      (a in adj && b in adj[a]) || (a == s && b == t) || (a == t && b == s)
    ensures (forall a :: a in adj ==> Distinct(adj[a])) ==>
      forall a :: a in Link(adj, s, t) ==> Distinct(Link(adj, s, t)[a])
  {
  }

  lemma AddNodeFacts(g: Graph, x: Gene)
    requires WellFormed(g)
    ensures WellFormed(AddNode(g, x))
    ensures AddNode(g, x).adj.Keys == g.adj.Keys + {x}
    ensures forall a :: a in g.adj ==> AddNode(g, x).adj[a] == g.adj[a]
    ensures x !in g.adj ==> AddNode(g, x).adj[x] == []
    ensures forall a, b :: Adjacent(AddNode(g, x), a, b) <==> Adjacent(g, a, b)
    ensures AddNode(g, x).rel == g.rel
  {
    if x !in g.adj {
      var g' := AddNode(g, x);
      assert x !in g.nodes;
      assert forall i :: 0 <= i < |g.nodes| ==> g'.nodes[i] == g.nodes[i];
      assert forall a, b :: Adjacent(g', a, b) <==> Adjacent(g, a, b);
    }
  }

  /** The graph after both endpoints of an edge have been added as nodes. */
  lemma AddEndpoints(g: Graph, s: Gene, t: Gene)
    requires WellFormed(g)
    ensures WellFormed(AddNode(AddNode(g, s), t))
    ensures AddNode(AddNode(g, s), t).adj.Keys == g.adj.Keys + {s, t}
    ensures forall a, b :: Adjacent(AddNode(AddNode(g, s), t), a, b) <==> Adjacent(g, a, b)
    ensures AddNode(AddNode(g, s), t).rel == g.rel
  {
    AddNodeFacts(g, s);
    AddNodeFacts(AddNode(g, s), t);
  }

  /** Adding an edge adds exactly its endpoints and its two adjacencies. */
  lemma AddEdgeAdjacency(g: Graph, s: Gene, t: Gene, r: Relation)
    requires WellFormed(g)
    ensures AddEdge(g, s, t, r).adj.Keys == g.adj.Keys + {s, t}
    ensures forall a, b :: Adjacent(AddEdge(g, s, t, r), a, b) <==>
      Adjacent(g, a, b) || (a == s && b == t) || (a == t && b == s)
    ensures forall a :: a in AddEdge(g, s, t, r).adj ==> Distinct(AddEdge(g, s, t, r).adj[a])
    ensures AddEdge(g, s, t, r).rel == g.rel[{s, t} := r]
  {
    var g1 := AddNode(AddNode(g, s), t);
    AddEndpoints(g, s, t);
    LinkFacts(g1.adj, s, t);
    var g' := AddEdge(g, s, t, r);
    assert g'.adj == Link(g1.adj, s, t);
    forall a, b
      ensures Adjacent(g', a, b) <==> Adjacent(g, a, b) || (a == s && b == t) || (a == t && b == s)
    {
      assert Adjacent(g1, a, b) <==> Adjacent(g, a, b);
    }
  }

  /** Adding an edge keeps the graph well formed. */
  lemma AddEdgeFacts(g: Graph, s: Gene, t: Gene, r: Relation)
    requires WellFormed(g)
    ensures WellFormed(AddEdge(g, s, t, r))
    ensures AddEdge(g, s, t, r).adj.Keys == g.adj.Keys + {s, t}
    ensures forall a, b :: Adjacent(AddEdge(g, s, t, r), a, b) <==>
      Adjacent(g, a, b) || (a == s && b == t) || (a == t && b == s)
    ensures AddEdge(g, s, t, r).rel == g.rel[{s, t} := r]
  {
    AddEdgeAdjacency(g, s, t, r);
    AddEndpoints(g, s, t);
    var g' := AddEdge(g, s, t, r);
    forall a, b | Adjacent(g', a, b)
      ensures Adjacent(g', b, a) && {a, b} in g'.rel
    {
      if (a == s && b == t) || (a == t && b == s) {
        assert {a, b} == {s, t};
      } else {
        assert Adjacent(g, a, b);
      }
    }
  }

  /** `networkx.from_pandas_edgelist(rows, "source", "target", ["relation"])`:
      the rows added one after another. */
  function FromEdgeList(rows: seq<Edge>): (g: Graph)
    ensures WellFormed(g)
  {
    if rows == [] then Graph([], map[], map[])
    else
      var g0 := FromEdgeList(rows[..|rows| - 1]);
      var e := rows[|rows| - 1];
      AddEdgeFacts(g0, e.source, e.target, e.relation);
      AddEdge(g0, e.source, e.target, e.relation)
  }

  lemma EndpointSnoc(rows: seq<Edge>, e: Edge, x: Gene)
    ensures Endpoint(rows + [e], x) <==> Endpoint(rows, x) || x == e.source || x == e.target
  {
    assert (rows + [e])[|rows|] == e;
    if Endpoint(rows, x) {
      var i :| 0 <= i < |rows| && (rows[i].source == x || rows[i].target == x);
      assert (rows + [e])[i] == rows[i];
    }
    if Endpoint(rows + [e], x) && !(x == e.source || x == e.target) {
      var i :| 0 <= i < |rows + [e]| && ((rows + [e])[i].source == x || (rows + [e])[i].target == x);
      assert i < |rows| && (rows + [e])[i] == rows[i];
    }
  }

  lemma LinkedSnoc(rows: seq<Edge>, e: Edge, a: Gene, b: Gene)
    ensures Linked(rows + [e], a, b) <==> Linked(rows, a, b) || Joins(e, a, b)
  {
    assert (rows + [e])[|rows|] == e;
    if Linked(rows, a, b) {
      var i :| 0 <= i < |rows| && Joins(rows[i], a, b);
      assert (rows + [e])[i] == rows[i];
    }
    if Linked(rows + [e], a, b) && !Joins(e, a, b) {
      var i :| 0 <= i < |rows + [e]| && Joins((rows + [e])[i], a, b);
      assert i < |rows| && (rows + [e])[i] == rows[i];
    }
  }

  /** The nodes of the graph are the endpoints of the rows. */
  lemma {:induction false} FromEdgeListNodes(rows: seq<Edge>)
    ensures forall x :: x in FromEdgeList(rows).adj <==> Endpoint(rows, x)
    decreases |rows|
  {
    if rows != [] {
      var init := rows[..|rows| - 1];
      var e := rows[|rows| - 1];
      assert rows == init + [e];
      FromEdgeListNodes(init);
      AddEdgeFacts(FromEdgeList(init), e.source, e.target, e.relation);
      forall x ensures x in FromEdgeList(rows).adj <==> Endpoint(rows, x) {
        EndpointSnoc(init, e, x);
      }
    }
  }

  /** Two nodes are neighbours exactly when some row joins them, in either
      direction. */
  lemma {:induction false} FromEdgeListAdjacency(rows: seq<Edge>)
    ensures forall a, b :: Adjacent(FromEdgeList(rows), a, b) <==> Linked(rows, a, b)
    decreases |rows|
  {
    if rows != [] {
      var init := rows[..|rows| - 1];
      var e := rows[|rows| - 1];
      assert rows == init + [e];
      FromEdgeListAdjacency(init);
      AddEdgeFacts(FromEdgeList(init), e.source, e.target, e.relation);
      forall a, b ensures Adjacent(FromEdgeList(rows), a, b) <==> Linked(rows, a, b) {
        LinkedSnoc(init, e, a, b);
      }
    }
  }

  /** Row `i` is the last row whose endpoints are those of row `i`. */
  ghost predicate LastFor(rows: seq<Edge>, i: int)
    requires 0 <= i < |rows|
  {
    forall j :: i < j < |rows| ==> Ends(rows[j]) != Ends(rows[i])
  }

  /** Adding the last row overwrites the relation of its unordered pair. */
  lemma FromEdgeListRel(rows: seq<Edge>)
    requires rows != []
    ensures FromEdgeList(rows).rel
         == FromEdgeList(rows[..|rows| - 1]).rel[Ends(rows[|rows| - 1]) := rows[|rows| - 1].relation]
  {
    var e := rows[|rows| - 1];
    AddEdgeAdjacency(FromEdgeList(rows[..|rows| - 1]), e.source, e.target, e.relation);
  }

  /** For a repeated pair (in either direction) the last row's relation is
      the one stored. */
  lemma {:induction false} FromEdgeListLastWins(rows: seq<Edge>, i: nat)
    requires i < |rows| && LastFor(rows, i)
    ensures Ends(rows[i]) in FromEdgeList(rows).rel
    ensures FromEdgeList(rows).rel[Ends(rows[i])] == rows[i].relation
    decreases |rows|
  {
    FromEdgeListRel(rows);
    if i < |rows| - 1 {
      LastForInit(rows, i);
      FromEdgeListLastWins(rows[..|rows| - 1], i);
    }
  }

  /** A row that is last for its pair before the final row, and whose pair
      the final row does not repeat. */
  lemma LastForInit(rows: seq<Edge>, i: nat)
    requires i < |rows| - 1 && LastFor(rows, i)
    ensures rows[..|rows| - 1][i] == rows[i]
    ensures LastFor(rows[..|rows| - 1], i)
    ensures Ends(rows[|rows| - 1]) != Ends(rows[i])
  {
    var init := rows[..|rows| - 1];
    forall j | i < j < |init| ensures Ends(init[j]) != Ends(init[i]) {
      assert init[j] == rows[j];
    }
  }

  /** The directed (source, target) pair of every row, in row order. */
  function Pairs(rows: seq<Edge>): (ps: seq<(Gene, Gene)>)
    ensures |ps| == |rows|
    ensures forall i :: 0 <= i < |rows| ==> ps[i] == (rows[i].source, rows[i].target)
  {
    seq(|rows|, i requires 0 <= i < |rows| => (rows[i].source, rows[i].target))
  }

  /** `pathway[["source", "target"]][pathway.duplicated(subset=["source", "target"], keep="first")]`:
      the pair of every row whose directed pair already occurred earlier. */
  function AmbiguousEdges(rows: seq<Edge>): (dups: seq<(Gene, Gene)>)
  {
    if rows == [] then []
    else
      var init := rows[..|rows| - 1];
      var p := (rows[|rows| - 1].source, rows[|rows| - 1].target);
      AmbiguousEdges(init) + (if p in Pairs(init) then [p] else [])
  }

  /** A directed pair is listed as ambiguous exactly when it occurs in two or
      more rows. */
  lemma {:induction false} AmbiguousEdgesRepeated(rows: seq<Edge>, p: (Gene, Gene))
    ensures p in AmbiguousEdges(rows) <==> multiset(Pairs(rows))[p] >= 2
    decreases |rows|
  {
    if rows != [] {
      var init := rows[..|rows| - 1];
      var q := (rows[|rows| - 1].source, rows[|rows| - 1].target);
      AmbiguousEdgesRepeated(init, p);
      assert Pairs(rows) == Pairs(init) + [q];
      assert multiset(Pairs(rows)) == multiset(Pairs(init)) + multiset{q};
      assert p in Pairs(init) <==> multiset(Pairs(init))[p] >= 1;
    }
  }

  /** The edge `e` has a directed pair in `flagged`. */
  ghost predicate Flagged(e: set<Gene>, flagged: set<(Gene, Gene)>) {
    exists p :: p in flagged && {p.0, p.1} == e
  }

  /** Every edge with a pair in `flagged` gets relation "ambiguous". */
  ghost function Mark(g: Graph, flagged: set<(Gene, Gene)>): Graph {
    Graph(g.nodes, g.adj, map e | e in g.rel :: if Flagged(e, flagged) then Some(AMBIGUOUS) else g.rel[e])
  }

  /** Flagging one more pair overwrites the relation of its edge only. */
  lemma MarkStep(g: Graph, flagged: set<(Gene, Gene)>, p: (Gene, Gene))
    requires {p.0, p.1} in g.rel
    ensures Mark(g, flagged + {p}).rel == Mark(g, flagged).rel[{p.0, p.1} := Some(AMBIGUOUS)]
  {
    var m1 := Mark(g, flagged + {p}).rel;
    var m2 := Mark(g, flagged).rel[{p.0, p.1} := Some(AMBIGUOUS)];
    forall e | e in g.rel ensures m1[e] == m2[e] {
      if e == {p.0, p.1} {
        assert Flagged(e, flagged + {p});
      } else {
        assert Flagged(e, flagged + {p}) <==> Flagged(e, flagged);
      }
    }
  }

  /** The graph `_derive_kam_from_pathway` leaves behind. */
  ghost function KamOf(rows: seq<Edge>): Graph {
    Mark(FromEdgeList(rows), set p | p in AmbiguousEdges(rows))
  }

  lemma PairOfEnds(x: Gene, y: Gene, a: Gene, b: Gene)
    requires {x, y} == {a, b}
    ensures (x == a && y == b) || (x == b && y == a)
  {
    assert x in {a, b} && y in {a, b};
    assert a in {x, y} && b in {x, y};
  }

  lemma MarkAt(g: Graph, flagged: set<(Gene, Gene)>, e: set<Gene>)
    requires e in g.rel
    ensures e in Mark(g, flagged).rel
    ensures Mark(g, flagged).rel[e] == if Flagged(e, flagged) then Some(AMBIGUOUS) else g.rel[e]
  {
  }

  lemma FlaggedPair(flagged: set<(Gene, Gene)>, a: Gene, b: Gene)
    ensures Flagged({a, b}, flagged) <==> (a, b) in flagged || (b, a) in flagged
  {
    if Flagged({a, b}, flagged) {
      var p :| p in flagged && {p.0, p.1} == {a, b};
      PairOfEnds(p.0, p.1, a, b);
    }
    if (a, b) in flagged {
      assert {(a, b).0, (a, b).1} == {a, b};
    }
    if (b, a) in flagged {
      assert {(b, a).0, (b, a).1} == {a, b};
    }
  }

  /** The relation of every KAM edge: "ambiguous" when its pair occurs in two
      or more rows in one of its two directions, else the last row's relation
      for that unordered pair. */
  lemma KamRelation(rows: seq<Edge>, a: Gene, b: Gene)
    requires {a, b} in FromEdgeList(rows).rel
    ensures {a, b} in KamOf(rows).rel
    ensures KamOf(rows).rel[{a, b}] ==
      if multiset(Pairs(rows))[(a, b)] >= 2 || multiset(Pairs(rows))[(b, a)] >= 2 then Some(AMBIGUOUS)
      else FromEdgeList(rows).rel[{a, b}]
  {
    var dups := set p | p in AmbiguousEdges(rows);
    MarkAt(FromEdgeList(rows), dups, {a, b});
    FlaggedPair(dups, a, b);
    AmbiguousEdgesRepeated(rows, (a, b));
    AmbiguousEdgesRepeated(rows, (b, a));
  }

  /** A pair listed twice (in the same direction) ends up "ambiguous". */
  lemma KamRepeatedPair(rows: seq<Edge>, i: nat, j: nat)
    requires i < j < |rows|
    requires rows[i].source == rows[j].source && rows[i].target == rows[j].target
    ensures Ends(rows[i]) in KamOf(rows).rel
    ensures KamOf(rows).rel[Ends(rows[i])] == Some(AMBIGUOUS)
  {
    var p := (rows[i].source, rows[i].target);
    var k := |rows| - 1;
    while k > i && Ends(rows[k]) != Ends(rows[i])
      invariant i <= k < |rows|
      invariant forall m :: k < m < |rows| ==> Ends(rows[m]) != Ends(rows[i])
      decreases k
    {
      k := k - 1;
    }
    assert LastFor(rows, k);
    FromEdgeListLastWins(rows, k);
    TwoOccurrences(Pairs(rows), i, j);
    KamRelation(rows, rows[i].source, rows[i].target);
  }

  /** A value found at two positions occurs at least twice. */
  lemma TwoOccurrences<T>(ps: seq<T>, i: nat, j: nat)
    requires i < j < |ps| && ps[i] == ps[j]
    ensures multiset(ps)[ps[i]] >= 2
  {
    assert ps == ps[..i] + ps[i..j] + ps[j..];
    assert ps[i..j][0] == ps[i] && ps[j..][0] == ps[i];
    assert multiset(ps[i..j])[ps[i]] >= 1 && multiset(ps[j..])[ps[i]] >= 1;
  }

  /** A row whose directed pair occurs once, and whose reverse pair never
      occurs, is the only row with its endpoints. */
  lemma SinglePairIsLast(rows: seq<Edge>, i: nat, j: nat)
    requires i < j < |rows|
    requires multiset(Pairs(rows))[(rows[i].source, rows[i].target)] == 1
    requires rows[i].source != rows[i].target ==> multiset(Pairs(rows))[(rows[i].target, rows[i].source)] == 0
    ensures Ends(rows[j]) != Ends(rows[i])
  {
    var ps := Pairs(rows);
    if Ends(rows[j]) == Ends(rows[i]) {
      PairOfEnds(rows[j].source, rows[j].target, rows[i].source, rows[i].target);
      if ps[j] == ps[i] {
        TwoOccurrences(ps, i, j);
      }
    }
  }

  /** A pair listed once, and never in the other direction, keeps its row's
      relation. */
  lemma KamSinglePair(rows: seq<Edge>, i: nat)
    requires i < |rows|
    requires multiset(Pairs(rows))[(rows[i].source, rows[i].target)] == 1
    requires rows[i].source != rows[i].target ==> multiset(Pairs(rows))[(rows[i].target, rows[i].source)] == 0
    ensures Ends(rows[i]) in KamOf(rows).rel
    ensures KamOf(rows).rel[Ends(rows[i])] == rows[i].relation
  {
    forall j | i < j < |rows| ensures Ends(rows[j]) != Ends(rows[i]) {
      SinglePairIsLast(rows, i, j);
    }
    FromEdgeListLastWins(rows, i);
    KamRelation(rows, rows[i].source, rows[i].target);
  }

  /** Marking changes relations only, so the KAM network keeps the shape of
      the graph it was built from. */
  lemma KamWellFormed(rows: seq<Edge>)
    ensures WellFormed(KamOf(rows))
    ensures KamOf(rows).nodes == FromEdgeList(rows).nodes && KamOf(rows).adj == FromEdgeList(rows).adj
    ensures KamOf(rows).rel.Keys == FromEdgeList(rows).rel.Keys
  {
    MarkWellFormed(FromEdgeList(rows), set p | p in AmbiguousEdges(rows));
  }

  lemma MarkWellFormed(g: Graph, flagged: set<(Gene, Gene)>)
    requires WellFormed(g)
    ensures WellFormed(Mark(g, flagged))
    ensures Mark(g, flagged).rel.Keys == g.rel.Keys
  {
    var g' := Mark(g, flagged);
    assert g'.rel.Keys == g.rel.Keys;
    forall a, b | Adjacent(g', a, b) ensures Adjacent(g', b, a) && {a, b} in g'.rel {
      assert Adjacent(g, a, b);
    }
  }

  /** Every pair listed as ambiguous is the pair of some row, hence an edge
      of the graph. */
  lemma {:induction false} AmbiguousEdgesAreEdges(rows: seq<Edge>, p: (Gene, Gene))
    requires p in AmbiguousEdges(rows)
    ensures Adjacent(FromEdgeList(rows), p.0, p.1)
  {
    AmbiguousEdgesRepeated(rows, p);
    assert p in multiset(Pairs(rows));
    var i :| 0 <= i < |rows| && Pairs(rows)[i] == p;
    assert Joins(rows[i], p.0, p.1);
    FromEdgeListAdjacency(rows);
  }

  /** Two flag sets that flag the same edges mark the same graph. */
  lemma MarkSame(g: Graph, f1: set<(Gene, Gene)>, f2: set<(Gene, Gene)>)
    requires forall e :: e in g.rel ==> (Flagged(e, f1) <==> Flagged(e, f2))
    ensures Mark(g, f1) == Mark(g, f2)
  {
    assert Mark(g, f1).rel == Mark(g, f2).rel;
  }

  lemma FlaggedComplete(rows: seq<Edge>, flagged: set<(Gene, Gene)>, e: set<Gene>)
    requires forall p :: p in flagged ==> p in AmbiguousEdges(rows)
    requires forall a, b :: a in FromEdgeList(rows).nodes && Adjacent(FromEdgeList(rows), a, b) && (a, b) in AmbiguousEdges(rows) ==>
      (a, b) in flagged
    ensures Flagged(e, flagged) <==> Flagged(e, set p | p in AmbiguousEdges(rows))
  {
    if Flagged(e, set p | p in AmbiguousEdges(rows)) {
      var p :| p in AmbiguousEdges(rows) && {p.0, p.1} == e;
      AmbiguousEdgesAreEdges(rows, p);
      assert p in flagged;
    }
  }

  /** Flagging, among the listed pairs, every one that starts at a node and
      joins it to a neighbour marks the same edges as flagging all of them. */
  lemma MarkComplete(rows: seq<Edge>, flagged: set<(Gene, Gene)>)
    requires forall p :: p in flagged ==> p in AmbiguousEdges(rows)
    requires forall a, b :: a in FromEdgeList(rows).nodes && Adjacent(FromEdgeList(rows), a, b) && (a, b) in AmbiguousEdges(rows) ==>
      (a, b) in flagged
    ensures Mark(FromEdgeList(rows), flagged) == KamOf(rows)
  {
    var g0 := FromEdgeList(rows);
    forall e | e in g0.rel ensures Flagged(e, flagged) <==> Flagged(e, set p | p in AmbiguousEdges(rows)) {
      FlaggedComplete(rows, flagged, e);
    }
    MarkSame(g0, flagged, set p | p in AmbiguousEdges(rows));
  }

  /** The repeated pairs (a, b) of `dups` that a walk over the nodes
      `visited` and their neighbours meets. */
  ghost function MetPairs(g: Graph, dups: seq<(Gene, Gene)>, visited: seq<Gene>): set<(Gene, Gene)> {
    set p | p in dups && p.0 in visited && Adjacent(g, p.0, p.1)
  }

  /** The repeated pairs (node, b) with `b` among `nbrs`. */
  ghost function PairsFrom(node: Gene, nbrs: seq<Gene>, dups: seq<(Gene, Gene)>): set<(Gene, Gene)> {
    set p | p in dups && p.0 == node && p.1 in nbrs
  }

  /** Visiting one more node meets the repeated pairs from it to its
      neighbours. */
  lemma MetPairsStep(g: Graph, dups: seq<(Gene, Gene)>, visited: seq<Gene>, node: Gene)
    requires node in g.adj
    ensures MetPairs(g, dups, visited + [node]) == MetPairs(g, dups, visited) + PairsFrom(node, g.adj[node], dups)
  {
  }
}
