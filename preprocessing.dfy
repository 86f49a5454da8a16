/** Up/down-regulation thresholding of a differential-expression table
    (src/neurommsig/preprocessing.py). */
module PreProcessing {
  import opened Genes

  /** One row of the expression table. */
  datatype GeneRecord = GeneRecord(symbol: Gene, logFoldChange: real, pValue: real)

  /** Configured thresholds (src/mechanrich/constants.py); the operations below
      take the thresholds as parameters. */
  const P_THRED: real := 0.01
  const FC_THRED: real := 0.5

  /** The boolean mask of one of the two filters: significant, and a fold
      change strictly beyond the threshold in the given direction. */
  predicate Passes(r: GeneRecord, pThred: real, fcThred: real, dir: State) {
    r.pValue < pThred &&
    match dir
    case Increase => r.logFoldChange > fcThred
    case Decrease => r.logFoldChange < -fcThred
  }

  /** The symbols of the records that pass the filter for `dir`, in input order.
      `Regulated(genes, p, fc, Increase)` is the up-regulated list and
      `Regulated(genes, p, fc, Decrease)` the down-regulated one. */
  function Regulated(genes: seq<GeneRecord>, pThred: real, fcThred: real, dir: State): (r: seq<Gene>)
    ensures |r| <= |genes|
    ensures forall x :: x in r <==>
      exists i :: 0 <= i < |genes| && genes[i].symbol == x && Passes(genes[i], pThred, fcThred, dir)
  {
    if genes == [] then []
    else
      var init := genes[..|genes| - 1];
      var last := genes[|genes| - 1];
      var rest := Regulated(init, pThred, fcThred, dir);
      assert forall i :: 0 <= i < |init| ==> init[i] == genes[i];
      if Passes(last, pThred, fcThred, dir) then rest + [last.symbol] else rest
  }

  /** The filter distributes over concatenation: it keeps the passing records
      of each part, in order, and nothing else. */
  lemma {:induction false} RegulatedAppend(a: seq<GeneRecord>, b: seq<GeneRecord>, pThred: real, fcThred: real, dir: State)
    ensures Regulated(a + b, pThred, fcThred, dir)
         == Regulated(a, pThred, fcThred, dir) + Regulated(b, pThred, fcThred, dir)
    decreases |b|
  {
    if b == [] {
      assert a + b == a;
    } else {
      var b' := b[..|b| - 1];
      assert (a + b)[..|a + b| - 1] == a + b';
      assert (a + b)[|a + b| - 1] == b[|b| - 1];
      RegulatedAppend(a, b', pThred, fcThred, dir);
    }
  }

  /** A single record lands in the list exactly when it passes the mask. */
  lemma RegulatedSingle(r: GeneRecord, pThred: real, fcThred: real, dir: State)
    ensures Regulated([r], pThred, fcThred, dir) == if Passes(r, pThred, fcThred, dir) then [r.symbol] else []
  {
    assert [r][..0] == [];
  }

  /** With a non-negative fold-change threshold no record passes both masks,
      and a record that is not significant, or whose fold change lies within
      the threshold, passes neither. */
  lemma PassesExclusive(r: GeneRecord, pThred: real, fcThred: real)
    requires fcThred >= 0.0
    ensures !(Passes(r, pThred, fcThred, Increase) && Passes(r, pThred, fcThred, Decrease))
    ensures r.pValue >= pThred || (-fcThred <= r.logFoldChange <= fcThred) ==>
      !Passes(r, pThred, fcThred, Increase) && !Passes(r, pThred, fcThred, Decrease)
  {
  }

  /** Gene symbols are unique in an expression snapshot. */
  ghost predicate UniqueSymbols(genes: seq<GeneRecord>) {
    forall i, j :: 0 <= i < j < |genes| ==> genes[i].symbol != genes[j].symbol
  }

  /** With unique symbols and a non-negative fold-change threshold, no gene is
      both up- and down-regulated. */
  lemma UpDownDisjoint(genes: seq<GeneRecord>, pThred: real, fcThred: real, x: Gene)
    requires UniqueSymbols(genes)
    requires fcThred >= 0.0
    ensures !(x in Regulated(genes, pThred, fcThred, Increase) && x in Regulated(genes, pThred, fcThred, Decrease))
  {
  }

  /** The configured thresholds keep the two lists apart: no gene with a
      unique record is both up- and down-regulated. */
  lemma ConfiguredListsDisjoint(genes: seq<GeneRecord>, x: Gene)
    requires UniqueSymbols(genes)
    ensures !(x in Regulated(genes, P_THRED, FC_THRED, Increase) && x in Regulated(genes, P_THRED, FC_THRED, Decrease))
  {
    UpDownDisjoint(genes, P_THRED, FC_THRED, x);
  }
}
