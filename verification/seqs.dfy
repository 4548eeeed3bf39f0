/** Facts about sequences shared by the crawl and the tables. */
module Seqs {

  /** No element occurs twice. */
  predicate Distinct<T(==)>(s: seq<T>) {
    forall i, j :: 0 <= i < j < |s| ==> s[i] != s[j]
  }

  /** Distinct elements of a set are no more than the set holds. */
  lemma {:induction false} DistinctWithin<T>(s: seq<T>, xs: set<T>)
    requires Distinct(s)
    requires forall i :: 0 <= i < |s| ==> s[i] in xs
    ensures |s| <= |xs|
    decreases |s|
  {
    if |s| > 0 {
      assert forall i :: 0 <= i < |s| - 1 ==> s[1..][i] == s[i + 1];
      DistinctWithin(s[1..], xs - {s[0]});
    }
  }
}
