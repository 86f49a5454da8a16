/** Vocabulary shared by every stage of the reverse-causal-reasoning pipeline. */
module Genes {
  import opened Wrappers

  /** A gene symbol, such as "SMAD3". */
  type Gene = string

  /** Observed state change of a differentially expressed gene. */
  datatype State = Increase | Decrease

  /** The relation carried by a pathway edge. `None` is the missing value (NaN)
      that a left join leaves when no mapping row supplies a relation. */
  type Relation = Option<string>

  const ACTIVATION: string := "activation"
  const INHIBITION: string := "inhibition"
  const AMBIGUOUS: string := "ambiguous"

  /** No element occurs twice. */
  ghost predicate Distinct<T>(s: seq<T>) {
    forall i, j :: 0 <= i < j < |s| ==> s[i] != s[j]
  }

  /** Extending a prefix of `s` by one element. */
  lemma PrefixStep<T>(s: seq<T>, i: nat)
    requires i < |s|
    ensures s[..i + 1] == s[..i] + [s[i]]
    ensures s[..i + 1][..i] == s[..i]
    ensures forall x :: x in s[..i + 1] <==> x in s[..i] || x == s[i]
  {
  }
}
