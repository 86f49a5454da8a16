/** Assembly of the pathway edge list (src/neurommsig/reader.py, `get_pathway`):
    a left join of the pathway rows with the relation-mapping rows on
    (source, target), projected on (source, target, relation), followed by
    whole-row de-duplication. */
module Reader {
  import opened Wrappers
  import opened Genes

  /** A row of the pathway file: source, interaction, target. */
  datatype PathwayRow = PathwayRow(source: Gene, interaction: string, target: Gene)

  /** A row of the relation-mapping file. */
  datatype MappingRow = MappingRow(source: Gene, target: Gene, relation: string)

  /** A row of the assembled pathway: the edge list the graph is built from. */
  datatype Edge = Edge(source: Gene, target: Gene, relation: Relation)

  predicate MatchesKey(p: PathwayRow, m: MappingRow) {
    m.source == p.source && m.target == p.target
  }

  /** The mapping rows whose key equals the pathway row's key, in mapping order. */
  function Matches(p: PathwayRow, mapping: seq<MappingRow>): (ms: seq<MappingRow>)
    ensures |ms| <= |mapping|
    ensures forall m :: m in ms <==> m in mapping && MatchesKey(p, m)
  {
    if mapping == [] then []
    else
      var init := mapping[..|mapping| - 1];
      var last := mapping[|mapping| - 1];
      assert mapping == init + [last];
      Matches(p, init) + (if MatchesKey(p, last) then [last] else [])
  }

  /** The joined rows for the matching mapping rows `ms`, one per row, in order. */
  function WithRelations(p: PathwayRow, ms: seq<MappingRow>): (rows: seq<Edge>)
    ensures |rows| == |ms|
    ensures forall e :: e in rows <==> exists m :: m in ms && e == Edge(p.source, p.target, Some(m.relation))
  {
    if ms == [] then []
    else
      var init := ms[..|ms| - 1];
      assert ms == init + [ms[|ms| - 1]];
      WithRelations(p, init) + [Edge(p.source, p.target, Some(ms[|ms| - 1].relation))]
  }

  /** The rows a left join produces for one pathway row: one per matching
      mapping row, or a single row with a missing relation when none matches. */
  function JoinRow(p: PathwayRow, mapping: seq<MappingRow>): (rows: seq<Edge>)
    ensures |rows| == if Matches(p, mapping) == [] then 1 else |Matches(p, mapping)|
    ensures forall e :: e in rows ==> e.source == p.source && e.target == p.target
    ensures forall e :: e in rows && e.relation.Some? ==>
      MappingRow(p.source, p.target, e.relation.value) in mapping
    ensures forall m :: m in mapping && MatchesKey(p, m) ==>
      Edge(p.source, p.target, Some(m.relation)) in rows
    ensures Edge(p.source, p.target, None) in rows <==> forall m :: m in mapping ==> !MatchesKey(p, m)
  {
    var ms := Matches(p, mapping);
    if ms == [] then [Edge(p.source, p.target, None)]
    else
      assert forall m :: m in ms ==> m == MappingRow(p.source, p.target, m.relation);
      assert ms[0] in mapping && MatchesKey(p, ms[0]);
      WithRelations(p, ms)
  }

  /** `pathway.merge(mapping, how="left", on=["source", "target"])` projected on
      (source, target, relation): the joined rows of each pathway row, in
      pathway order. */
  function LeftJoin(pathway: seq<PathwayRow>, mapping: seq<MappingRow>): (rows: seq<Edge>)
    ensures |rows| >= |pathway|
    ensures forall i :: 0 <= i < |pathway| ==>
      exists e :: e in rows && e.source == pathway[i].source && e.target == pathway[i].target
  {
    if pathway == [] then []
    else
      var init := LeftJoin(pathway[..|pathway| - 1], mapping);
      var last := JoinRow(pathway[|pathway| - 1], mapping);
      assert last[0] in init + last;
      assert forall e :: e in init ==> e in init + last;
      init + last
  }

  /** Every joined row carries the key of some pathway row, and a relation that
      a mapping row with that key supplies, or none when no mapping row has it. */
  lemma {:induction false} LeftJoinRows(pathway: seq<PathwayRow>, mapping: seq<MappingRow>, e: Edge)
    requires e in LeftJoin(pathway, mapping)
    ensures exists p :: p in pathway && p.source == e.source && p.target == e.target
    ensures e.relation.Some? ==> MappingRow(e.source, e.target, e.relation.value) in mapping
    ensures e.relation.None? ==> forall m :: m in mapping ==> !(m.source == e.source && m.target == e.target)
    decreases |pathway|
  {
    var init := pathway[..|pathway| - 1];
    var last := pathway[|pathway| - 1];
    if e in LeftJoin(init, mapping) {
      LeftJoinRows(init, mapping, e);
      var p :| p in init && p.source == e.source && p.target == e.target;
      assert p in pathway;
    } else {
      assert e in JoinRow(last, mapping);
      if e.relation.None? {
        var rows := JoinRow(last, mapping);
        assert e == Edge(last.source, last.target, None);
      }
    }
  }

  /** Every pathway row contributes its joined rows to the join. */
  lemma {:induction false} LeftJoinCovers(pathway: seq<PathwayRow>, mapping: seq<MappingRow>, i: nat)
    requires i < |pathway|
    ensures forall e :: e in JoinRow(pathway[i], mapping) ==> e in LeftJoin(pathway, mapping)
    decreases |pathway|
  {
    if i < |pathway| - 1 {
      LeftJoinCovers(pathway[..|pathway| - 1], mapping, i);
    }
  }

  /** `drop_duplicates()`: the first occurrence of every distinct row, in order. */
  function DropDuplicates(rows: seq<Edge>): (r: seq<Edge>)
    ensures Distinct(r)
    ensures forall x :: x in r <==> x in rows
  {
    if rows == [] then []
    else
      var init := rows[..|rows| - 1];
      var last := rows[|rows| - 1];
      assert rows == init + [last];
      var kept := DropDuplicates(init);
      if last in kept then kept else kept + [last]
  }

  /** The position of the first occurrence of `x` in `s`. */
  function FirstIndex<T(==)>(s: seq<T>, x: T): (i: nat)
    requires x in s
    ensures i < |s| && s[i] == x && x !in s[..i]
  {
    if s[0] == x then 0
    else
      var i := FirstIndex(s[1..], x);
      assert s[..i + 1] == [s[0]] + s[1..][..i];
      1 + i
  }

  lemma FirstIndexPrefix<T>(s: seq<T>, t: seq<T>, x: T)
    requires x in s
    ensures FirstIndex(s + t, x) == FirstIndex(s, x)
  {
    var i := FirstIndex(s, x);
    assert (s + t)[i] == x;
    assert (s + t)[..i] == s[..i];
  }

  /** De-duplication keeps rows in the order of their first occurrence. */
  lemma {:induction false} DropDuplicatesOrder(rows: seq<Edge>)
    ensures forall i, j :: 0 <= i < j < |DropDuplicates(rows)| ==>
      FirstIndex(rows, DropDuplicates(rows)[i]) < FirstIndex(rows, DropDuplicates(rows)[j])
    decreases |rows|
  {
    if rows != [] {
      var init := rows[..|rows| - 1];
      var last := rows[|rows| - 1];
      assert rows == init + [last];
      DropDuplicatesOrder(init);
      var kept := DropDuplicates(init);
      forall x | x in kept
        ensures FirstIndex(rows, x) == FirstIndex(init, x)
      {
        FirstIndexPrefix(init, [last], x);
      }
      if last !in kept {
        assert rows[..|init|] == init;
      }
    }
  }

  /** `get_pathway`: left join, projection, de-duplication; no row occurs twice. */
  function GetPathway(pathway: seq<PathwayRow>, mapping: seq<MappingRow>): (edges: seq<Edge>)
    ensures Distinct(edges)
  {
    DropDuplicates(LeftJoin(pathway, mapping))
  }

  /** Every row of the assembled pathway is keyed by a pathway row, and its
      relation is supplied by a mapping row with the same key, or missing
      exactly when no mapping row has that key. */
  lemma GetPathwayProvenance(pathway: seq<PathwayRow>, mapping: seq<MappingRow>, e: Edge)
    requires e in GetPathway(pathway, mapping)
    ensures exists p :: p in pathway && p.source == e.source && p.target == e.target
    ensures e.relation.Some? ==> MappingRow(e.source, e.target, e.relation.value) in mapping
    ensures e.relation.None? <==> forall m :: m in mapping ==> !(m.source == e.source && m.target == e.target)
  {
    LeftJoinRows(pathway, mapping, e);
  }

  /** Every pathway row is represented in the assembled pathway, once with
      each relation that a matching mapping row supplies. */
  lemma GetPathwayCovers(pathway: seq<PathwayRow>, mapping: seq<MappingRow>, i: nat)
    requires i < |pathway|
    ensures exists e :: e in GetPathway(pathway, mapping) && e.source == pathway[i].source && e.target == pathway[i].target
    ensures forall m :: m in mapping && MatchesKey(pathway[i], m) ==>
      Edge(pathway[i].source, pathway[i].target, Some(m.relation)) in GetPathway(pathway, mapping)
  {
    LeftJoinCovers(pathway, mapping, i);
    var rows := JoinRow(pathway[i], mapping);
    assert rows[0] in rows;
  }

  /** Why a repeated key signals a conflict: two rows of the assembled pathway
      with the same (source, target) carry different relations. */
  lemma RepeatedKeyConflicts(pathway: seq<PathwayRow>, mapping: seq<MappingRow>, i: nat, j: nat)
    requires i < j < |GetPathway(pathway, mapping)|
    requires GetPathway(pathway, mapping)[i].source == GetPathway(pathway, mapping)[j].source
    requires GetPathway(pathway, mapping)[i].target == GetPathway(pathway, mapping)[j].target
    ensures GetPathway(pathway, mapping)[i].relation != GetPathway(pathway, mapping)[j].relation
  {
  }
}
