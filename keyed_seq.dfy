/**
 * Pure definitions over a sequence of items and a key function: the
 * reference meaning of every cache a slice builds (per-key groups, distinct
 * keys in first-seen order, key-to-first-index maps, the stable ascending
 * order and its reversal), and the lemmas that connect them.
 *
 * Recursive definitions peel the LAST item, so that they follow loops that
 * append one item at a time.
 */
module KeyedSeq {
  import opened KeySort

  /** Some item of `s` has key `k`. */
  ghost predicate HasKey<T>(s: seq<T>, key: T -> int, k: int) {
    exists i :: 0 <= i < |s| && key(s[i]) == k
  }

  /** `i` is the lowest index of `s` holding an item with key `k`. */
  ghost predicate IsFirstIndex<T>(s: seq<T>, key: T -> int, k: int, i: int) {
    && 0 <= i < |s|
    && key(s[i]) == k
    && forall j :: 0 <= j < i ==> key(s[j]) != k
  }

  /** The items of `s` whose key is `k`, in their order in `s`. */
  ghost function Filter<T>(s: seq<T>, key: T -> int, k: int): (r: seq<T>)
    ensures |r| <= |s|
    ensures forall i :: 0 <= i < |r| ==> key(r[i]) == k
  {
    if s == [] then []
    else
      var init := Filter(s[..|s| - 1], key, k);
      if key(s[|s| - 1]) == k then init + [s[|s| - 1]] else init
  }

  /** Each key of `s` mapped to its group: the items with that key, in order. */
  ghost function Groups<T>(s: seq<T>, key: T -> int): (g: map<int, seq<T>>)
    ensures forall k :: k in g <==> HasKey(s, key, k)
    ensures forall k :: k in g ==> g[k] == Filter(s, key, k)
  {
    map k | k in (set i | 0 <= i < |s| :: key(s[i])) :: Filter(s, key, k)
  }

  /** Every item of a group carries the group's key. */
  ghost predicate GroupsKeyed<T>(groups: map<int, seq<T>>, key: T -> int) {
    forall k, i :: k in groups && 0 <= i < |groups[k]| ==> key(groups[k][i]) == k
  }

  /** The keys of `s`, each once, listed as one meets them from the front. */
  ghost function DistinctKeys<T>(s: seq<T>, key: T -> int): seq<int> {
    if s == [] then []
    else
      var ks := DistinctKeys(s[..|s| - 1], key);
      var k := key(s[|s| - 1]);
      if k in ks then ks else ks + [k]
  }

  /**
   * The map built by scanning `s` from the front and recording the index of
   * each key the first time it is seen.
   */
  ghost function FirstIndexMap<T>(s: seq<T>, key: T -> int): map<int, int> {
    if s == [] then map[]
    else
      var m := FirstIndexMap(s[..|s| - 1], key);
      var k := key(s[|s| - 1]);
      if k in m then m else m[k := |s| - 1]
  }

  /** The keys of `ks` appear in `s` for the first time in the order they are listed. */
  ghost predicate InFirstSeenOrder<T>(ks: seq<int>, s: seq<T>, key: T -> int) {
    var m := FirstIndexMap(s, key);
    forall i, j :: 0 <= i < j < |ks| ==> ks[i] in m && ks[j] in m && m[ks[i]] < m[ks[j]]
  }

  /** Keys never decrease from front to back. */
  ghost predicate SortedByKey<T>(s: seq<T>, key: T -> int) {
    forall i, j :: 0 <= i < j < |s| ==> key(s[i]) <= key(s[j])
  }

  /** Keys never increase from front to back. */
  ghost predicate SortedByKeyDesc<T>(s: seq<T>, key: T -> int) {
    forall i, j :: 0 <= i < j < |s| ==> key(s[i]) >= key(s[j])
  }

  /** For every key, `r` and `s` hold the same items with that key in the same order. */
  ghost predicate SameGroups<T>(r: seq<T>, s: seq<T>, key: T -> int) {
    forall k :: Filter(r, key, k) == Filter(s, key, k)
  }

  /**
   * `r` is `s` sorted stably by key: non-decreasing keys, and items with
   * equal keys in their original relative order.
   */
  ghost predicate IsStableSortOf<T>(r: seq<T>, s: seq<T>, key: T -> int) {
    SortedByKey(r, key) && SameGroups(r, s, key)
  }

  /** The groups of `ks`, concatenated in the order of `ks`. */
  ghost function Flatten<T>(ks: seq<int>, groups: map<int, seq<T>>): seq<T>
    requires forall k :: k in ks ==> k in groups
  {
    if ks == [] then []
    else
      var k := ks[|ks| - 1];
      assert k in ks;
      Flatten(ks[..|ks| - 1], groups) + groups[k]
  }

  /** `s` back to front. */
  ghost function Reverse<T>(s: seq<T>): (r: seq<T>)
    ensures |r| == |s|
    ensures forall i :: 0 <= i < |s| ==> r[i] == s[|s| - 1 - i]
  {
    if s == [] then [] else [s[|s| - 1]] + Reverse(s[..|s| - 1])
  }

  // ---------------------------------------------------------------------
  // Filter

  lemma HasKeySnoc<T>(s: seq<T>, x: T, key: T -> int, k: int)
    ensures HasKey(s + [x], key, k) <==> HasKey(s, key, k) || key(x) == k
  {
    var t := s + [x];
    if HasKey(s, key, k) {
      var i :| 0 <= i < |s| && key(s[i]) == k;
      assert t[i] == s[i];
    }
    if key(x) == k {
      assert t[|s|] == x;
    }
    if HasKey(t, key, k) && key(x) != k {
      var i :| 0 <= i < |t| && key(t[i]) == k;
      assert i < |s| && t[i] == s[i];
    }
  }

  /** Filtering distributes over concatenation. */
  lemma {:induction false} FilterAppend<T>(a: seq<T>, b: seq<T>, key: T -> int, k: int)
    ensures Filter(a + b, key, k) == Filter(a, key, k) + Filter(b, key, k)
    decreases |b|
  {
    if b == [] {
      assert a + b == a;
    } else {
      var init := b[..|b| - 1];
      assert (a + b)[..|a + b| - 1] == a + init;
      FilterAppend(a, init, key, k);
    }
  }

  /** A group is empty exactly when its key does not occur. */
  lemma {:induction false} FilterNonEmpty<T>(s: seq<T>, key: T -> int, k: int)
    ensures Filter(s, key, k) != [] <==> HasKey(s, key, k)
  {
    if s != [] {
      var init, x := s[..|s| - 1], s[|s| - 1];
      assert s == init + [x];
      FilterNonEmpty(init, key, k);
      HasKeySnoc(init, x, key, k);
    }
  }

  /** Filtering by `k` keeps everything when every key is `k`. */
  lemma {:induction false} FilterAll<T>(s: seq<T>, key: T -> int, k: int)
    requires forall i :: 0 <= i < |s| ==> key(s[i]) == k
    ensures Filter(s, key, k) == s
  {
    if s != [] {
      FilterAll(s[..|s| - 1], key, k);
    }
  }

  /** Each item occurs in its own group as often as in `s`, and in no other group. */
  lemma {:induction false} FilterCount<T>(s: seq<T>, key: T -> int, k: int, x: T)
    ensures multiset(Filter(s, key, k))[x] == if key(x) == k then multiset(s)[x] else 0
  {
    if s != [] {
      var init := s[..|s| - 1];
      assert s == init + [s[|s| - 1]];
      FilterCount(init, key, k, x);
    }
  }

  /** Sequences with the same groups are permutations of each other. */
  lemma SameGroupsPermutation<T>(r: seq<T>, s: seq<T>, key: T -> int)
    requires SameGroups(r, s, key)
    ensures multiset(r) == multiset(s)
    ensures |r| == |s|
  {
    forall x ensures multiset(r)[x] == multiset(s)[x] {
      FilterCount(r, key, key(x), x);
      FilterCount(s, key, key(x), x);
    }
    assert multiset(r) == multiset(s);
    assert |multiset(r)| == |r|;
  }

  /** Sequences with the same groups have the same keys. */
  lemma SameGroupsHasKey<T>(r: seq<T>, s: seq<T>, key: T -> int, k: int)
    requires SameGroups(r, s, key)
    ensures HasKey(r, key, k) <==> HasKey(s, key, k)
  {
    FilterNonEmpty(r, key, k);
    FilterNonEmpty(s, key, k);
  }

  // ---------------------------------------------------------------------
  // The stable sort is unique

  /**
   * Two key-sorted sequences with the same groups are equal: the stable
   * sort of a sequence is determined by the sequence.
   */
  lemma {:induction false} SortedSameGroupsEqual<T>(r1: seq<T>, r2: seq<T>, key: T -> int)
    requires SortedByKey(r1, key) && SortedByKey(r2, key)
    requires SameGroups(r1, r2, key)
    ensures r1 == r2
    decreases |r1|
  {
    SameGroupsPermutation(r1, r2, key);
    if r1 != [] {
      var n := |r1|;
      var p1, x1 := r1[..n - 1], r1[n - 1];
      var p2, x2 := r2[..n - 1], r2[n - 1];
      assert r1 == p1 + [x1] && r2 == p2 + [x2];
      LastKeysAgree(r1, r2, key);
      var K := key(x1);
      FilterSnoc(p1, x1, key, K);
      FilterSnoc(p2, x2, key, K);
      SnocInjective(Filter(p1, key, K), x1, Filter(p2, key, K), x2);
      forall k ensures Filter(p1, key, k) == Filter(p2, key, k) {
        FilterSnoc(p1, x1, key, k);
        FilterSnoc(p2, x2, key, k);
      }
      SortedSameGroupsEqual(p1, p2, key);
    }
  }

  /** Appending an item extends its own group only. */
  lemma FilterSnoc<T>(s: seq<T>, x: T, key: T -> int, k: int)
    ensures Filter(s + [x], key, k) == Filter(s, key, k) + (if key(x) == k then [x] else [])
  {
  }

  lemma SnocInjective<T>(a: seq<T>, x: T, b: seq<T>, y: T)
    requires a + [x] == b + [y]
    ensures a == b && x == y
  {
    assert (a + [x])[|a|] == x && (b + [y])[|b|] == y;
    assert a == (a + [x])[..|a|] && b == (b + [y])[..|b|];
  }

  /** Key-sorted sequences with the same groups end in the same key. */
  lemma LastKeysAgree<T>(r1: seq<T>, r2: seq<T>, key: T -> int)
    requires SortedByKey(r1, key) && SortedByKey(r2, key)
    requires SameGroups(r1, r2, key)
    requires |r1| == |r2| > 0
    ensures key(r1[|r1| - 1]) == key(r2[|r2| - 1])
  {
    var n := |r1|;
    var K1, K2 := key(r1[n - 1]), key(r2[n - 1]);
    assert HasKey(r1, key, K1);
    assert HasKey(r2, key, K2);
    SameGroupsHasKey(r1, r2, key, K1);
    SameGroupsHasKey(r1, r2, key, K2);
    var i1 :| 0 <= i1 < n && key(r2[i1]) == K1;
    var i2 :| 0 <= i2 < n && key(r1[i2]) == K2;
    assert K1 <= K2 by { if i1 < n - 1 { assert key(r2[i1]) <= key(r2[n - 1]); } }
    assert K2 <= K1 by { if i2 < n - 1 { assert key(r1[i2]) <= key(r1[n - 1]); } }
  }

  /** The stable sort of a sequence is unique. */
  lemma StableSortUnique<T>(r1: seq<T>, r2: seq<T>, s: seq<T>, key: T -> int)
    requires IsStableSortOf(r1, s, key) && IsStableSortOf(r2, s, key)
    ensures r1 == r2
  {
    SortedSameGroupsEqual(r1, r2, key);
  }

  /** A stable sort is a permutation of what it sorts, and holds the same keys. */
  lemma StableSortPermutation<T>(r: seq<T>, s: seq<T>, key: T -> int)
    requires IsStableSortOf(r, s, key)
    ensures multiset(r) == multiset(s) && |r| == |s|
    ensures forall k :: HasKey(r, key, k) <==> HasKey(s, key, k)
  {
    SameGroupsPermutation(r, s, key);
    forall k ensures HasKey(r, key, k) <==> HasKey(s, key, k) {
      SameGroupsHasKey(r, s, key, k);
    }
  }

  // ---------------------------------------------------------------------
  // Grouping and first indexes

  lemma GroupsAreKeyed<T>(s: seq<T>, key: T -> int)
    ensures GroupsKeyed(Groups(s, key), key)
  {
  }

  /** Appending an item appends it to its own group, opening the group if needed. */
  lemma GroupsSnoc<T>(s: seq<T>, x: T, key: T -> int)
    ensures var g := Groups(s, key);
      Groups(s + [x], key) ==
        g[key(x) := (if key(x) in g then g[key(x)] else []) + [x]]
  {
    var t := s + [x];
    var g, g' := Groups(s, key), Groups(t, key);
    assert t[..|t| - 1] == s;
    forall k ensures k in g' <==> k in g || k == key(x) {
      HasKeySnoc(s, x, key, k);
    }
    if key(x) !in g {
      FilterNonEmpty(s, key, key(x));
    }
  }

  /**
   * The scan's map holds exactly the keys of `s`, each mapped to the lowest
   * index holding it.
   */
  lemma {:induction false} FirstIndexMapCorrect<T>(s: seq<T>, key: T -> int)
    ensures forall k :: k in FirstIndexMap(s, key) <==> HasKey(s, key, k)
    ensures forall k :: k in FirstIndexMap(s, key) ==>
      IsFirstIndex(s, key, k, FirstIndexMap(s, key)[k])
  {
    if s != [] {
      var init, x := s[..|s| - 1], s[|s| - 1];
      assert s == init + [x];
      FirstIndexMapCorrect(init, key);
      forall k ensures HasKey(s, key, k) <==> HasKey(init, key, k) || key(x) == k {
        HasKeySnoc(init, x, key, k);
      }
      var m := FirstIndexMap(init, key);
      forall k | k in FirstIndexMap(s, key)
        ensures IsFirstIndex(s, key, k, FirstIndexMap(s, key)[k])
      {
        if k in m {
          assert IsFirstIndex(init, key, k, m[k]);
        } else {
          assert !HasKey(init, key, k);
        }
      }
    }
  }

  /** Appending an item records its index only if its key is new. */
  lemma FirstIndexMapSnoc<T>(s: seq<T>, x: T, key: T -> int)
    ensures var m := FirstIndexMap(s, key);
      FirstIndexMap(s + [x], key) == if key(x) in m then m else m[key(x) := |s|]
  {
  }

  /** The first index of a key is unique. */
  lemma FirstIndexUnique<T>(s: seq<T>, key: T -> int, k: int, i: int, j: int)
    requires IsFirstIndex(s, key, k, i) && IsFirstIndex(s, key, k, j)
    ensures i == j
  {
  }

  /**
   * The distinct keys list each key of `s` exactly once, in first-seen
   * order.
   */
  lemma {:induction false} DistinctKeysCorrect<T>(s: seq<T>, key: T -> int)
    ensures Distinct(DistinctKeys(s, key))
    ensures forall k :: k in DistinctKeys(s, key) <==> HasKey(s, key, k)
    ensures InFirstSeenOrder(DistinctKeys(s, key), s, key)
  {
    FirstIndexMapCorrect(s, key);
    if s != [] {
      var init, x := s[..|s| - 1], s[|s| - 1];
      assert s == init + [x];
      DistinctKeysCorrect(init, key);
      FirstIndexMapCorrect(init, key);
      forall k ensures HasKey(s, key, k) <==> HasKey(init, key, k) || key(x) == k {
        HasKeySnoc(init, x, key, k);
      }
      var ks, m := DistinctKeys(init, key), FirstIndexMap(init, key);
      if key(x) !in ks {
        var ks', m' := DistinctKeys(s, key), FirstIndexMap(s, key);
        assert ks' == ks + [key(x)];
        assert m' == m[key(x) := |s| - 1];
        forall i, j | 0 <= i < j < |ks'|
          ensures ks'[i] in m' && ks'[j] in m' && m'[ks'[i]] < m'[ks'[j]]
        {
          if j < |ks| {
            assert ks'[i] == ks[i] && ks'[j] == ks[j];
            assert ks[i] in m && ks[j] in m;
          } else {
            assert ks'[i] == ks[i];
            assert ks[i] in ks;
            assert IsFirstIndex(init, key, ks[i], m[ks[i]]);
          }
        }
      }
    }
  }

  // ---------------------------------------------------------------------
  // Flattening groups in key order

  lemma FlattenSnoc<T>(ks: seq<int>, k: int, groups: map<int, seq<T>>)
    requires forall k' :: k' in ks + [k] ==> k' in groups
    ensures Flatten(ks + [k], groups) == Flatten(ks, groups) + groups[k]
  {
  }

  /**
   * Concatenating the groups of duplicate-free keys `ks` gives, for each
   * key, its whole group if the key is listed and nothing otherwise.
   */
  lemma {:induction false} FlattenFilter<T>(ks: seq<int>, s: seq<T>, key: T -> int, k: int)
    requires Distinct(ks)
    requires forall k' :: k' in ks ==> k' in Groups(s, key)
    ensures Filter(Flatten(ks, Groups(s, key)), key, k) == if k in ks then Filter(s, key, k) else []
  {
    if ks != [] {
      var init, k0 := ks[..|ks| - 1], ks[|ks| - 1];
      assert ks == init + [k0];
      assert k0 !in init by {
        forall i | 0 <= i < |init| ensures init[i] != k0 {
          assert ks[i] == init[i];
        }
      }
      FlattenFilter(init, s, key, k);
      var g := Groups(s, key);
      FilterAppend(Flatten(init, g), g[k0], key, k);
      if k == k0 {
        FilterAll(g[k0], key, k);
      } else {
        FilterNonEmpty(g[k0], key, k);
      }
    }
  }

  /** Every item of the flattening of ascending keys carries a key no larger than the last. */
  lemma {:induction false} FlattenSorted<T>(ks: seq<int>, s: seq<T>, key: T -> int)
    requires Ascending(ks)
    requires forall k :: k in ks ==> k in Groups(s, key)
    ensures SortedByKey(Flatten(ks, Groups(s, key)), key)
    ensures forall i :: 0 <= i < |Flatten(ks, Groups(s, key))| ==>
      key(Flatten(ks, Groups(s, key))[i]) <= ks[|ks| - 1]
  {
    if ks != [] {
      var init, k0 := ks[..|ks| - 1], ks[|ks| - 1];
      FlattenSorted(init, s, key);
      var g := Groups(s, key);
      var a, b := Flatten(init, g), g[k0];
      assert Flatten(ks, g) == a + b;
      forall i | 0 <= i < |a| ensures key(a[i]) <= k0 {
        assert ks[|init| - 1] <= k0;
      }
      forall i, j | 0 <= i < j < |a + b| ensures key((a + b)[i]) <= key((a + b)[j]) {
        if j < |a| {
          assert (a + b)[i] == a[i] && (a + b)[j] == a[j];
        } else if i < |a| {
          assert (a + b)[i] == a[i] && (a + b)[j] == b[j - |a|];
        } else {
          assert (a + b)[i] == b[i - |a|] && (a + b)[j] == b[j - |a|];
        }
      }
    }
  }

  /**
   * Flattening the groups of `s` along its keys in strictly ascending order
   * is the stable sort of `s`.
   */
  lemma FlattenIsStableSort<T>(ks: seq<int>, s: seq<T>, key: T -> int)
    requires StrictlyAscending(ks)
    requires forall k :: k in ks <==> HasKey(s, key, k)
    ensures forall k :: k in ks ==> k in Groups(s, key)
    ensures IsStableSortOf(Flatten(ks, Groups(s, key)), s, key)
  {
    FlattenSorted(ks, s, key);
    forall k ensures Filter(Flatten(ks, Groups(s, key)), key, k) == Filter(s, key, k) {
      FlattenFilter(ks, s, key, k);
      FilterNonEmpty(s, key, k);
    }
  }

  /**
   * The groups, taken in first-seen key order, together hold every item
   * exactly once: their lengths sum to the length of `s`.
   */
  lemma FirstSeenGroupsPartition<T>(s: seq<T>, key: T -> int)
    ensures forall k :: k in DistinctKeys(s, key) ==> k in Groups(s, key)
    ensures multiset(Flatten(DistinctKeys(s, key), Groups(s, key))) == multiset(s)
    ensures |Flatten(DistinctKeys(s, key), Groups(s, key))| == |s|
  {
    DistinctKeysCorrect(s, key);
    var f := Flatten(DistinctKeys(s, key), Groups(s, key));
    forall k ensures Filter(f, key, k) == Filter(s, key, k) {
      FlattenFilter(DistinctKeys(s, key), s, key, k);
      FilterNonEmpty(s, key, k);
    }
    SameGroupsPermutation(f, s, key);
  }

  // ---------------------------------------------------------------------
  // The descending order

  lemma ReverseSnoc<T>(s: seq<T>, x: T)
    ensures Reverse(s + [x]) == [x] + Reverse(s)
  {
  }

  /** Reversing reverses each group. */
  lemma {:induction false} FilterReverse<T>(s: seq<T>, key: T -> int, k: int)
    ensures Filter(Reverse(s), key, k) == Reverse(Filter(s, key, k))
  {
    if s != [] {
      var init, x := s[..|s| - 1], s[|s| - 1];
      FilterReverse(init, key, k);
      assert Reverse(s) == [x] + Reverse(init);
      FilterAppend([x], Reverse(init), key, k);
      assert [x][..0] == [];
      if key(x) == k {
        ReverseSnoc(Filter(init, key, k), x);
      }
    }
  }

  /** Reversing keeps the items. */
  lemma {:induction false} ReversePermutation<T>(s: seq<T>)
    ensures multiset(Reverse(s)) == multiset(s)
  {
    if s != [] {
      var init, x := s[..|s| - 1], s[|s| - 1];
      ReversePermutation(init);
      assert s == init + [x];
      assert Reverse(s) == [x] + Reverse(init);
    }
  }

  /**
   * The reverse of the stable ascending sort is sorted descending, is a
   * permutation of `s`, and lists each group back to front.
   */
  lemma DescendingView<T>(asc: seq<T>, s: seq<T>, key: T -> int)
    requires IsStableSortOf(asc, s, key)
    ensures SortedByKeyDesc(Reverse(asc), key)
    ensures multiset(Reverse(asc)) == multiset(s)
    ensures forall k :: Filter(Reverse(asc), key, k) == Reverse(Filter(s, key, k))
    ensures forall k :: HasKey(Reverse(asc), key, k) <==> HasKey(s, key, k)
  {
    var d := Reverse(asc);
    forall i, j | 0 <= i < j < |d| ensures key(d[i]) >= key(d[j]) {
      assert d[i] == asc[|asc| - 1 - i] && d[j] == asc[|asc| - 1 - j];
    }
    StableSortPermutation(asc, s, key);
    ReversePermutation(asc);
    forall k ensures Filter(d, key, k) == Reverse(Filter(s, key, k)) {
      FilterReverse(asc, key, k);
    }
    forall k ensures HasKey(d, key, k) <==> HasKey(asc, key, k) {
      ReverseHasKey(asc, key, k);
    }
  }

  /** Reversing keeps the keys. */
  lemma ReverseHasKey<T>(s: seq<T>, key: T -> int, k: int)
    ensures HasKey(Reverse(s), key, k) <==> HasKey(s, key, k)
  {
    var d := Reverse(s);
    if HasKey(s, key, k) {
      var i :| 0 <= i < |s| && key(s[i]) == k;
      assert d[|s| - 1 - i] == s[i];
    }
    if HasKey(d, key, k) {
      var i :| 0 <= i < |d| && key(d[i]) == k;
      assert d[i] == s[|s| - 1 - i];
    }
  }

  /**
   * In the stable ascending order the items with key `k` form one block
   * starting at the first index of `k`; so in the reversed order `k` first
   * appears where that block ends, counted from the back. The two first
   * indexes agree only when the block sits exactly in the middle, that is
   * when twice the ascending first index plus the group size is `|s|`.
   */
  lemma DescFirstIndex<T>(asc: seq<T>, s: seq<T>, key: T -> int, k: int)
    requires IsStableSortOf(asc, s, key)
    requires HasKey(s, key, k)
    ensures k in FirstIndexMap(asc, key) && k in FirstIndexMap(Reverse(asc), key)
    ensures FirstIndexMap(Reverse(asc), key)[k] ==
      |s| - FirstIndexMap(asc, key)[k] - |Filter(s, key, k)|
  {
    var d := Reverse(asc);
    StableSortPermutation(asc, s, key);
    ReverseHasKey(asc, key, k);
    FirstIndexMapCorrect(asc, key);
    FirstIndexMapCorrect(d, key);
    var f, e := FirstIndexMap(asc, key)[k], FirstIndexMap(d, key)[k];
    ReverseFirstIsLast(asc, d, key, k, e);
    SortedBlock(asc, key, k, f, |asc| - 1 - e);
    assert Filter(asc, key, k) == Filter(s, key, k);
  }

  /** The first index of `k` in the reversal `d` of `s` marks the last index of `k` in `s`. */
  lemma ReverseFirstIsLast<T>(s: seq<T>, d: seq<T>, key: T -> int, k: int, e: int)
    requires |d| == |s| && forall i :: 0 <= i < |s| ==> d[i] == s[|s| - 1 - i]
    requires IsFirstIndex(d, key, k, e)
    ensures 0 <= |s| - 1 - e < |s| && key(s[|s| - 1 - e]) == k
    ensures forall j :: |s| - 1 - e < j < |s| ==> key(s[j]) != k
  {
    var n := |s|;
    assert d[e] == s[n - 1 - e];
    forall j | n - 1 - e < j < n ensures key(s[j]) != k {
      assert d[n - 1 - j] == s[j];
    }
  }

  /**
   * In a key-sorted sequence, the items with key `k` are exactly those
   * between its first index `f` and its last index `last`.
   */
  lemma SortedBlock<T>(asc: seq<T>, key: T -> int, k: int, f: int, last: int)
    requires SortedByKey(asc, key)
    requires IsFirstIndex(asc, key, k, f)
    requires f <= last < |asc| && key(asc[last]) == k
    requires forall j :: last < j < |asc| ==> key(asc[j]) != k
    ensures |Filter(asc, key, k)| == last + 1 - f
  {
    var before, block, after := asc[..f], asc[f..last + 1], asc[last + 1..];
    assert asc == before + block + after;
    FilterAppend(before + block, after, key, k);
    FilterAppend(before, block, key, k);
    assert !HasKey(before, key, k);
    FilterNonEmpty(before, key, k);
    assert !HasKey(after, key, k) by {
      forall i | 0 <= i < |after| ensures key(after[i]) != k {
        assert after[i] == asc[last + 1 + i];
      }
    }
    FilterNonEmpty(after, key, k);
    forall i | 0 <= i < |block| ensures key(block[i]) == k {
      assert block[i] == asc[f + i];
      assert key(asc[f]) <= key(asc[f + i]);
      if f + i < last {
        assert key(asc[f + i]) <= key(asc[last]);
      }
    }
    FilterAll(block, key, k);
  }
}
