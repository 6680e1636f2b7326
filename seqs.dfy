/**
 * The query shapes the handlers use on a collection, read as a sequence of documents
 * in the store's natural (insertion) order: `find_one` (first match), `delete_many`
 * (keep the rest, in order), `delete_one` (drop one position) and a cursor sorted
 * newest first.
 */
module Seqs {
  import opened Results

  /** `find_one(filter)`: the position of the first document the filter matches. */
  function FirstIndex<T>(s: seq<T>, p: T -> bool): (r: Option<nat>)
    ensures r.Some? ==> r.value < |s| && p(s[r.value])
    ensures r.Some? ==> forall j :: 0 <= j < r.value ==> !p(s[j])
    ensures r.None? <==> forall j :: 0 <= j < |s| ==> !p(s[j])
  {
    if s == [] then None
    else if p(s[0]) then Some(0)
    else match FirstIndex(s[1..], p)
      case None => None
      case Some(k) => Some(k + 1)
  }

  /** `delete_many(filter)` seen from what remains: the documents it keeps, in order. */
  function Filter<T>(s: seq<T>, keep: T -> bool): (r: seq<T>)
    ensures |r| <= |s|
    ensures forall i :: 0 <= i < |r| ==> r[i] in s && keep(r[i])
    ensures forall i :: 0 <= i < |s| && keep(s[i]) ==> s[i] in r
  {
    if s == [] then [] else (if keep(s[0]) then [s[0]] else []) + Filter(s[1..], keep)
  }

  /** `delete_one` at a known position. */
  function RemoveAt<T>(s: seq<T>, k: nat): (r: seq<T>)
    requires k < |s|
    ensures |r| == |s| - 1
    ensures forall i :: 0 <= i < k ==> r[i] == s[i]
    ensures forall i :: k <= i < |r| ==> r[i] == s[i + 1]
  {
    s[..k] + s[k + 1..]
  }

  /** Removing position `k` keeps every other element. */
  lemma RemoveAtKeepsOthers<T>(xs: seq<T>, k: nat)
    requires k < |xs|
    ensures forall j :: 0 <= j < |xs| && j != k ==> xs[j] in RemoveAt(xs, k)
  {
    forall j | 0 <= j < |xs| && j != k
      ensures xs[j] in RemoveAt(xs, k)
    {
      if j < k {
        assert RemoveAt(xs, k)[j] == xs[j];
      } else {
        assert RemoveAt(xs, k)[j - 1] == xs[j];
      }
    }
  }

  /** The documents `keep` selects, last inserted first: what `find(filter)` yields once
      sorted descending on a key that grows with insertion order. */
  function NewestFirst<T>(s: seq<T>, keep: T -> bool): (r: seq<T>)
    ensures |r| <= |s|
    ensures forall i :: 0 <= i < |r| ==> r[i] in s && keep(r[i])
    ensures forall i :: 0 <= i < |s| && keep(s[i]) ==> s[i] in r
  {
    if s == [] then [] else NewestFirst(s[1..], keep) + (if keep(s[0]) then [s[0]] else [])
  }

  /** Every earlier element stands in `rel` to every later one. */
  ghost predicate Pairwise<T>(s: seq<T>, rel: (T, T) -> bool) {
    forall i, j :: 0 <= i < j < |s| ==> rel(s[i], s[j])
  }

  /** Every later element stands in `rel` to every earlier one. */
  ghost predicate PairwiseReversed<T>(s: seq<T>, rel: (T, T) -> bool) {
    forall i, j :: 0 <= i < j < |s| ==> rel(s[j], s[i])
  }

  lemma PairwiseAppend<T>(s: seq<T>, x: T, rel: (T, T) -> bool)
    requires Pairwise(s, rel)
    requires forall i :: 0 <= i < |s| ==> rel(s[i], x)
    ensures Pairwise(s + [x], rel)
  {
  }

  lemma {:induction false} PairwiseFilter<T>(s: seq<T>, keep: T -> bool, rel: (T, T) -> bool)
    requires Pairwise(s, rel)
    ensures Pairwise(Filter(s, keep), rel)
  {
    if s != [] {
      assert Pairwise(s[1..], rel);
      PairwiseFilter(s[1..], keep, rel);
      var rest := Filter(s[1..], keep);
      forall y | y in rest
        ensures rel(s[0], y)
      {
        var j :| 0 <= j < |s[1..]| && s[1..][j] == y;
        assert s[j + 1] == y;
      }
    }
  }

  lemma PairwiseRemoveAt<T>(s: seq<T>, k: nat, rel: (T, T) -> bool)
    requires k < |s| && Pairwise(s, rel)
    ensures Pairwise(RemoveAt(s, k), rel)
  {
    var r := RemoveAt(s, k);
    forall i, j | 0 <= i < j < |r|
      ensures rel(r[i], r[j])
    {
      var i' := if i < k then i else i + 1;
      var j' := if j < k then j else j + 1;
      assert r[i] == s[i'] && r[j] == s[j'];
    }
  }

  /** Reading a collection newest first reverses its order: if insertion order is
      ordered by `rel`, the selection is ordered by `rel` backwards. */
  lemma {:induction false} NewestFirstReversed<T>(s: seq<T>, keep: T -> bool, rel: (T, T) -> bool)
    requires Pairwise(s, rel)
    ensures PairwiseReversed(NewestFirst(s, keep), rel)
  {
    if s != [] {
      assert Pairwise(s[1..], rel);
      NewestFirstReversed(s[1..], keep, rel);
      var rest := NewestFirst(s[1..], keep);
      forall y | y in rest
        ensures rel(s[0], y)
      {
        var j :| 0 <= j < |s[1..]| && s[1..][j] == y;
        assert s[j + 1] == y;
      }
    }
  }
}
