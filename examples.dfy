/**
 * The scenario of the repository's tests: seven integer items keyed by
 * their own value, one key duplicated. A client of the slice proves the
 * expected results from the contracts alone.
 */
module SliceExamples {
  import opened KeyedSeq
  import opened Swort

  /** The key extractor of the scenario: an item is its own key. */
  function Identity(x: int): int {
    x
  }

  /** A sequence whose items all equal `k` holds `k` as many times as it is long. */
  lemma {:induction false} CountAll(t: seq<int>, k: int)
    requires forall i :: 0 <= i < |t| ==> t[i] == k
    ensures multiset(t)[k] == |t|
  {
    if t != [] {
      CountAll(t[..|t| - 1], k);
      assert t == t[..|t| - 1] + [t[|t| - 1]];
    }
  }

  /**
   * Under the identity key, sequences with the same items have the same
   * groups: each group is its key repeated.
   */
  lemma IdentityGroups(r: seq<int>, s: seq<int>)
    requires multiset(r) == multiset(s)
    ensures SameGroups(r, s, Identity)
  {
    forall k ensures Filter(r, Identity, k) == Filter(s, Identity, k) {
      var fr, fs := Filter(r, Identity, k), Filter(s, Identity, k);
      CountAll(fr, k);
      CountAll(fs, k);
      FilterCount(r, Identity, k, k);
      FilterCount(s, Identity, k, k);
      assert |fr| == |fs|;
      forall i | 0 <= i < |fr| ensures fr[i] == fs[i] {
        assert Identity(fr[i]) == k && Identity(fs[i]) == k;
      }
    }
  }

  function Given(): seq<int> {
    [5, 2, 6, 3, 1, 5, 4]
  }

  /** The expected ascending order of the scenario has non-decreasing keys. */
  lemma ScenarioSorted()
    ensures SortedByKey([1, 2, 3, 4, 5, 5, 6], Identity)
  {
  }

  /** The expected ascending order of the scenario is the stable sort of its items. */
  lemma ScenarioAscending()
    ensures IsStableSortOf([1, 2, 3, 4, 5, 5, 6], Given(), Identity)
  {
    var r := [1, 2, 3, 4, 5, 5, 6];
    ScenarioSorted();
    assert multiset(r) == multiset(Given()) by {
      calc {
        multiset(Given());
        multiset([5, 2, 6, 3, 1, 5, 4]);
        multiset{1, 2, 3, 4, 5, 5, 6};
        multiset(r);
      }
    }
    IdentityGroups(r, Given());
  }

  /** Any stable sort of the scenario's items is the expected ascending order. */
  lemma ScenarioAscendingOnly(asc: seq<int>)
    requires IsStableSortOf(asc, Given(), Identity)
    ensures asc == [1, 2, 3, 4, 5, 5, 6]
  {
    ScenarioAscending();
    StableSortUnique(asc, [1, 2, 3, 4, 5, 5, 6], Given(), Identity);
  }

  /** The descending order of the scenario is its ascending order reversed. */
  lemma ScenarioDescending(asc: seq<int>)
    requires IsStableSortOf(asc, Given(), Identity)
    ensures Reverse(asc) == [6, 5, 5, 4, 3, 2, 1]
  {
    ScenarioAscendingOnly(asc);
    var d := Reverse(asc);
    assert d[0] == 6 && d[1] == 5 && d[2] == 5 && d[3] == 4;
    assert d[4] == 3 && d[5] == 2 && d[6] == 1;
  }

  /** The keys of the scenario are exactly 1 to 6. */
  lemma ScenarioKeys(k: int)
    ensures HasKey(Given(), Identity, k) <==> 1 <= k <= 6
  {
    var g := Given();
    if 1 <= k <= 6 {
      var i := if k == 5 then 0 else if k == 2 then 1 else if k == 6 then 2
        else if k == 3 then 3 else if k == 1 then 4 else 6;
      assert g[i] == k;
    }
    forall i | 0 <= i < |g| ensures 1 <= g[i] <= 6 {
      assert g[i] in multiset(g);
    }
  }

  /** One row of a lookup table of the tests: a probe key and the expected answer. */
  datatype Case = Case(probe: int, idx: int, ok: bool)

  /**
   * `c` is the answer the slice's contract promises for a lookup of
   * `c.probe` in `view`, an ordering of the scenario's items.
   */
  ghost predicate Answers(view: seq<int>, c: Case) {
    if c.ok then HasKey(Given(), Identity, c.probe) && IsFirstIndex(view, Identity, c.probe, c.idx)
    else !HasKey(Given(), Identity, c.probe) && c.idx == |Given()|
  }

  function OriginalCases(): seq<Case> {
    [Case(5, 0, true), Case(2, 1, true), Case(6, 2, true), Case(3, 3, true),
     Case(1, 4, true), Case(4, 6, true), Case(7, 7, false)]
  }

  function AscCases(): seq<Case> {
    [Case(1, 0, true), Case(2, 1, true), Case(3, 2, true), Case(4, 3, true),
     Case(5, 4, true), Case(6, 6, true), Case(7, 7, false)]
  }

  function DescCases(): seq<Case> {
    [Case(6, 0, true), Case(5, 1, true), Case(4, 3, true), Case(3, 4, true),
     Case(2, 5, true), Case(1, 6, true), Case(7, 7, false)]
  }

  /** Every row of a table answers its lookup in `view`. */
  ghost predicate AllAnswer(view: seq<int>, cases: seq<Case>) {
    forall t :: 0 <= t < |cases| ==> Answers(view, cases[t])
  }

  lemma OriginalCasesHold()
    ensures AllAnswer(Given(), OriginalCases())
  {
    forall t | 0 <= t < |OriginalCases()| ensures Answers(Given(), OriginalCases()[t]) {
      ScenarioKeys(OriginalCases()[t].probe);
    }
  }

  lemma AscCasesHold()
    ensures AllAnswer([1, 2, 3, 4, 5, 5, 6], AscCases())
  {
    forall t | 0 <= t < |AscCases()| ensures Answers([1, 2, 3, 4, 5, 5, 6], AscCases()[t]) {
      ScenarioKeys(AscCases()[t].probe);
    }
  }

  lemma DescCasesHold()
    ensures AllAnswer([6, 5, 5, 4, 3, 2, 1], DescCases())
  {
    forall t | 0 <= t < |DescCases()| ensures Answers([6, 5, 5, 4, 3, 2, 1], DescCases()[t]) {
      ScenarioKeys(DescCases()[t].probe);
    }
  }

  /** A lookup result that meets the slice's contract is the row's expected answer. */
  lemma LookupMatches(view: seq<int>, c: Case, idx: int, ok: bool)
    requires Answers(view, c)
    requires ok <==> HasKey(Given(), Identity, c.probe)
    requires ok ==> IsFirstIndex(view, Identity, c.probe, idx)
    requires !ok ==> idx == |Given()|
    ensures (idx, ok) == (c.idx, c.ok)
  {
    if ok {
      FirstIndexUnique(view, Identity, c.probe, idx, c.idx);
    }
  }

  /** The expected answers of a table, in order. */
  function Expected(cases: seq<Case>): (r: seq<(int, bool)>)
    ensures |r| == |cases|
    ensures forall t :: 0 <= t < |cases| ==> r[t] == (cases[t].idx, cases[t].ok)
  {
    if cases == [] then []
    else Expected(cases[..|cases| - 1]) + [(cases[|cases| - 1].idx, cases[|cases| - 1].ok)]
  }

  /** The length, and every lookup of the table in the original order. */
  method ScenarioSearchFromOriginal() returns (len: nat, got: seq<(int, bool)>)
    ensures len == 7
    ensures got == Expected(OriginalCases())
  {
    var slice := new Slice.MakeSlice(Given(), Identity);
    len := slice.Len();
    var cases := OriginalCases();
    OriginalCasesHold();
    got := [];
    for t := 0 to |cases|
      invariant slice.Valid()
      invariant got == Expected(cases[..t])
    {
      var idx, ok := slice.SearchFromOriginal(cases[t].probe);
      LookupMatches(Given(), cases[t], idx, ok);
      assert cases[..t + 1][..t] == cases[..t];
      got := got + [(idx, ok)];
    }
    assert cases[..|cases|] == cases;
  }

  /** The ascending order, its caching, and the untouched original. */
  method ScenarioSortByAsc() returns (asc: seq<int>, again: seq<int>, original: seq<int>)
    ensures asc == [1, 2, 3, 4, 5, 5, 6] && again == asc
    ensures original == [5, 2, 6, 3, 1, 5, 4]
  {
    var slice := new Slice.MakeSlice(Given(), Identity);
    asc := slice.SortByAsc();
    ScenarioAscendingOnly(asc);
    again := slice.SortByAsc();
    original := slice.items;
  }

  /** Every lookup of the table in the ascending order. */
  method ScenarioSearchFromSortedByAsc() returns (got: seq<(int, bool)>)
    ensures got == Expected(AscCases())
  {
    var slice := new Slice.MakeSlice(Given(), Identity);
    var sorted := slice.SortByAsc();
    ScenarioAscendingOnly(sorted);
    AscCasesHold();
    got := LookupAsc(slice, AscCases());
  }

  /** One lookup in the cached ascending order, which it leaves in place. */
  method LookupAscOnce(slice: Slice<int>, c: Case) returns (answer: (int, bool))
    requires slice.Valid() && slice.items == Given() && slice.key == Identity
    requires slice.ascSortedItems.Some? && Answers(slice.ascSortedItems.value, c)
    modifies slice
    ensures slice.Valid() && slice.ascSortedItems == old(slice.ascSortedItems)
    ensures answer == (c.idx, c.ok)
  {
    var view := slice.ascSortedItems.value;
    var idx, ok := slice.SearchFromSortedByAsc(c.probe);
    LookupMatches(view, c, idx, ok);
    answer := (idx, ok);
  }

  /** Runs the lookups of `cases` in the cached ascending order, one after another. */
  method LookupAsc(slice: Slice<int>, cases: seq<Case>) returns (got: seq<(int, bool)>)
    requires slice.Valid() && slice.items == Given() && slice.key == Identity
    requires slice.ascSortedItems.Some? && AllAnswer(slice.ascSortedItems.value, cases)
    modifies slice
    ensures got == Expected(cases)
  {
    var view := slice.ascSortedItems.value;
    got := [];
    for t := 0 to |cases|
      invariant slice.Valid()
      invariant slice.ascSortedItems == Some(view)
      invariant got == Expected(cases[..t])
    {
      var answer := LookupAscOnce(slice, cases[t]);
      assert cases[..t + 1][..t] == cases[..t];
      got := got + [answer];
    }
    assert cases[..|cases|] == cases;
  }

  /** The descending order and its caching. */
  method ScenarioSortByDesc() returns (desc: seq<int>, again: seq<int>)
    ensures desc == [6, 5, 5, 4, 3, 2, 1] && again == desc
  {
    var slice := new Slice.MakeSlice(Given(), Identity);
    desc := slice.SortByDesc();
    ScenarioDescending(slice.ascSortedItems.value);
    again := slice.SortByDesc();
  }

  /** Every lookup of the table in the descending order. */
  method ScenarioSearchFromSortedByDesc() returns (got: seq<(int, bool)>)
    ensures got == Expected(DescCases())
  {
    var slice := new Slice.MakeSlice(Given(), Identity);
    var sorted := slice.SortByDesc();
    ScenarioDescending(slice.ascSortedItems.value);
    DescCasesHold();
    got := LookupDesc(slice, DescCases());
  }

  /** One lookup in the cached descending order, which it leaves in place. */
  method LookupDescOnce(slice: Slice<int>, c: Case) returns (answer: (int, bool))
    requires slice.Valid() && slice.items == Given() && slice.key == Identity
    requires slice.descSortedItems.Some? && Answers(slice.descSortedItems.value, c)
    modifies slice
    ensures slice.Valid() && slice.descSortedItems == old(slice.descSortedItems)
    ensures answer == (c.idx, c.ok)
  {
    var view := slice.descSortedItems.value;
    var idx, ok := slice.SearchFromSortedByDesc(c.probe);
    LookupMatches(view, c, idx, ok);
    answer := (idx, ok);
  }

  /** Runs the lookups of `cases` in the cached descending order, one after another. */
  method LookupDesc(slice: Slice<int>, cases: seq<Case>) returns (got: seq<(int, bool)>)
    requires slice.Valid() && slice.items == Given() && slice.key == Identity
    requires slice.descSortedItems.Some? && AllAnswer(slice.descSortedItems.value, cases)
    modifies slice
    ensures got == Expected(cases)
  {
    var view := slice.descSortedItems.value;
    got := [];
    for t := 0 to |cases|
      invariant slice.Valid()
      invariant slice.descSortedItems == Some(view)
      invariant got == Expected(cases[..t])
    {
      var answer := LookupDescOnce(slice, cases[t]);
      assert cases[..t + 1][..t] == cases[..t];
      got := got + [answer];
    }
    assert cases[..|cases|] == cases;
  }
}
