/**
 * The sort applied to the distinct keys of a slice before its items are
 * flattened in key order. The original delegates this to the standard
 * library's in-place sort; here it is an insertion sort over a sequence of
 * keys, proved to return an ascending permutation of its input.
 */
module KeySort {

  /** Every key is at most every later key. */
  ghost predicate Ascending(s: seq<int>) {
    forall i, j :: 0 <= i < j < |s| ==> s[i] <= s[j]
  }

  /** Every key is below every later key. */
  ghost predicate StrictlyAscending(s: seq<int>) {
    forall i, j :: 0 <= i < j < |s| ==> s[i] < s[j]
  }

  /** No key occurs twice. */
  ghost predicate Distinct(s: seq<int>) {
    forall i, j :: 0 <= i < j < |s| ==> s[i] != s[j]
  }

  /**
   * Sorts the keys ascending. The slice only ever hands it duplicate-free
   * keys, for which the result is strictly ascending.
   */
  method SortKeys(ks: seq<int>) returns (r: seq<int>)
    ensures Ascending(r)
    ensures multiset(r) == multiset(ks)
    ensures Distinct(ks) ==> StrictlyAscending(r)
  {
    r := [];
    for n := 0 to |ks|
      invariant Ascending(r)
      invariant multiset(r) == multiset(ks[..n])
      invariant Distinct(ks) ==> StrictlyAscending(r)
    {
      assert ks[..n + 1] == ks[..n] + [ks[n]];
      if Distinct(ks) {
        assert ks[n] !in ks[..n];
        assert ks[n] !in multiset(r);
      }
      r := InsertKey(r, ks[n]);
    }
    assert ks[..|ks|] == ks;
  }

  /** Inserts `x` after every key at most `x`. */
  method InsertKey(r: seq<int>, x: int) returns (s: seq<int>)
    requires Ascending(r)
    ensures Ascending(s)
    ensures multiset(s) == multiset(r) + multiset{x}
    ensures StrictlyAscending(r) && x !in r ==> StrictlyAscending(s)
  {
    var j := FindSlot(r, x);
    s := r[..j] + [x] + r[j..];
    InsertKeepsKeys(r, j, x);
    InsertKeepsOrder(r, j, x);
    InsertKeepsStrictOrder(r, j, x);
  }

  /** Scans from the back for the position just after the last key at most `x`. */
  method FindSlot(r: seq<int>, x: int) returns (j: nat)
    requires Ascending(r)
    ensures j <= |r|
    ensures j > 0 ==> r[j - 1] <= x
    ensures forall t :: j <= t < |r| ==> r[t] > x
  {
    j := |r|;
    while j > 0 && r[j - 1] > x
      invariant 0 <= j <= |r|
      invariant forall t :: j <= t < |r| ==> r[t] > x
    {
      j := j - 1;
    }
  }

  /** Placing `x` anywhere adds exactly one `x` to the keys. */
  lemma InsertKeepsKeys(r: seq<int>, j: nat, x: int)
    requires j <= |r|
    ensures multiset(r[..j] + [x] + r[j..]) == multiset(r) + multiset{x}
  {
    assert r == r[..j] + r[j..];
  }

  /** Placing `x` after the keys at most `x` and before the larger ones keeps the order. */
  lemma InsertKeepsOrder(r: seq<int>, j: nat, x: int)
    requires Ascending(r) && j <= |r|
    requires j > 0 ==> r[j - 1] <= x
    requires forall t :: j <= t < |r| ==> r[t] > x
    ensures Ascending(r[..j] + [x] + r[j..])
  {
  }

  /** The same, when `x` differs from every key already placed. */
  lemma InsertKeepsStrictOrder(r: seq<int>, j: nat, x: int)
    requires j <= |r|
    requires j > 0 ==> r[j - 1] <= x
    requires forall t :: j <= t < |r| ==> r[t] > x
    ensures StrictlyAscending(r) && x !in r ==> StrictlyAscending(r[..j] + [x] + r[j..])
  {
  }
}
