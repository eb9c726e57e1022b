/**
 * The slice: a fixed sequence of items and a key extractor, with caches
 * that are filled lazily the first time they are needed and then kept:
 * the items grouped by key, the distinct keys, the first index of each key
 * in the original order, and the ascending and descending orders with the
 * first index of each key in each.
 *
 * Keys are integers. The items and the extractor are `const`: nothing ever
 * changes the original sequence or its length. Go's `nil` for a cache that
 * has not been computed yet is `None`.
 */
module Swort {
  import opened KeySort
  import opened KeyedSeq

  datatype Option<V> = None | Some(value: V)

  /**
   * Concatenates the groups of `keys` in the order of `keys`, recording
   * the index at which each key first appears. Every item of a group has
   * the group's key.
   */
  method FlattenGroups<T>(keys: seq<int>, groups: map<int, seq<T>>, key: T -> int)
    returns (sorted: seq<T>, firstIdx: map<int, int>)
    requires forall k :: k in keys ==> k in groups
    requires GroupsKeyed(groups, key)
    ensures sorted == Flatten(keys, groups)
    ensures firstIdx == FirstIndexMap(sorted, key)
  {
    sorted := [];
    firstIdx := map[];
    var idx := 0;
    for a := 0 to |keys|
      invariant sorted == Flatten(keys[..a], groups)
      invariant idx == |sorted|
      invariant firstIdx == FirstIndexMap(sorted, key)
    {
      var sortValue := keys[a];
      FlattenSnoc(keys[..a], sortValue, groups);
      assert keys[..a + 1] == keys[..a] + [sortValue];
      var group := groups[sortValue];
      for b := 0 to |group|
        invariant sorted == Flatten(keys[..a], groups) + group[..b]
        invariant idx == |sorted|
        invariant firstIdx == FirstIndexMap(sorted, key)
      {
        var item := group[b];
        FirstIndexMapSnoc(sorted, item, key);
        assert group[..b + 1] == group[..b] + [item];
        sorted := sorted + [item];
        if sortValue !in firstIdx {
          firstIdx := firstIdx[sortValue := idx];
        }
        idx := idx + 1;
      }
      assert group[..|group|] == group;
    }
    assert keys[..|keys|] == keys;
  }

  class Slice<T(0)> {
    const items: seq<T>
    const key: T -> int

    var sortValues: seq<int>
    var sortValue2Item: map<int, seq<T>>
    var originalSortValue2Idx: Option<map<int, int>>
    var ascSortedItems: Option<seq<T>>
    var ascSortValue2Idx: Option<map<int, int>>
    var descSortedItems: Option<seq<T>>
    var descSortValue2Idx: Option<map<int, int>>

    /**
     * The caches agree with `items`. The states advance
     * ungrouped -> grouped -> ascending cached -> descending cached.
     */
    ghost predicate Valid()
      reads this
    {
      && (originalSortValue2Idx.None? ==>
            && sortValues == []
            && sortValue2Item == map[]
            && ascSortedItems.None?)
      && (originalSortValue2Idx.Some? ==>
            && originalSortValue2Idx.value == FirstIndexMap(items, key)
            && sortValue2Item == Groups(items, key)
            // The ascending sort sorts `sortValues` in place.
            && (ascSortedItems.None? ==> sortValues == DistinctKeys(items, key))
            && (ascSortedItems.Some? ==>
                  && StrictlyAscending(sortValues)
                  && forall k :: k in sortValues <==> HasKey(items, key, k)))
      && (ascSortedItems.Some? <==> ascSortValue2Idx.Some?)
      && (ascSortedItems.Some? ==>
            && IsStableSortOf(ascSortedItems.value, items, key)
            && ascSortValue2Idx.value == FirstIndexMap(ascSortedItems.value, key))
      && (descSortedItems.Some? <==> descSortValue2Idx.Some?)
      && (descSortedItems.Some? ==>
            && ascSortedItems.Some?
            && descSortedItems.value == Reverse(ascSortedItems.value)
            && descSortValue2Idx.value == FirstIndexMap(descSortedItems.value, key))
    }

    /** Wraps `items`; nothing is computed yet. */
    constructor MakeSlice(items: seq<T>, key: T -> int)
      ensures Valid()
      ensures this.items == items && this.key == key
      ensures originalSortValue2Idx.None? && ascSortedItems.None? && descSortedItems.None?
    {
      this.items := items;
      this.key := key;
      sortValues := [];
      sortValue2Item := map[];
      originalSortValue2Idx := None;
      ascSortedItems := None;
      ascSortValue2Idx := None;
      descSortedItems := None;
      descSortValue2Idx := None;
    }

    /** The number of items, the same before and after any other call. */
    function Len(): (n: nat)
      ensures n == |items|
    {
      |items|
    }

    /**
     * Groups the items by key in one pass, unless that was done before.
     * Afterwards the distinct keys are in first-seen order (unless the
     * ascending sort has since sorted them), each group lists its items in
     * original order, and each key maps to its first index.
     */
    method Initialize()
      requires Valid()
      modifies this
      ensures Valid()
      ensures originalSortValue2Idx == Some(FirstIndexMap(items, key))
      ensures sortValue2Item == Groups(items, key)
      ensures old(originalSortValue2Idx).Some? ==> unchanged(this)
      ensures old(originalSortValue2Idx).None? ==> sortValues == DistinctKeys(items, key)
      ensures ascSortedItems == old(ascSortedItems) && ascSortValue2Idx == old(ascSortValue2Idx)
      ensures descSortedItems == old(descSortedItems) && descSortValue2Idx == old(descSortValue2Idx)
    {
      if originalSortValue2Idx.Some? {
        return;
      }
      var values: seq<int> := [];
      var groups: map<int, seq<T>> := map[];
      var firstIdx: map<int, int> := map[];
      for i := 0 to |items|
        invariant values == DistinctKeys(items[..i], key)
        invariant groups == Groups(items[..i], key)
        invariant firstIdx == FirstIndexMap(items[..i], key)
        invariant unchanged(this)
      {
        var item := items[i];
        var sortVal := key(item);
        assert items[..i + 1] == items[..i] + [item];
        DistinctKeysCorrect(items[..i], key);
        FirstIndexMapCorrect(items[..i], key);
        GroupsSnoc(items[..i], item, key);
        if sortVal !in groups {
          assert [] + [item] == [item];
          values := values + [sortVal];
          groups := groups[sortVal := [item]];
          firstIdx := firstIdx[sortVal := i];
          continue;
        }
        groups := groups[sortVal := groups[sortVal] + [item]];
      }
      assert items[..|items|] == items;
      sortValues := values;
      sortValue2Item := groups;
      originalSortValue2Idx := Some(firstIdx);
    }

    /**
     * The ascending order, computed on first use by sorting the distinct
     * keys and concatenating their groups; the first index of each key in
     * it is recorded alongside.
     */
    method SortByAscLazy() returns (sorted: seq<T>)
      requires Valid()
      modifies this
      ensures Valid()
      ensures ascSortedItems == Some(sorted)
      ensures IsStableSortOf(sorted, items, key)
      ensures ascSortValue2Idx == Some(FirstIndexMap(sorted, key))
      ensures originalSortValue2Idx.Some?
      ensures old(ascSortedItems).Some? ==> unchanged(this)
      ensures old(originalSortValue2Idx).Some? ==>
        originalSortValue2Idx == old(originalSortValue2Idx) && sortValue2Item == old(sortValue2Item)
      ensures descSortedItems == old(descSortedItems) && descSortValue2Idx == old(descSortValue2Idx)
    {
      if ascSortedItems.Some? {
        return ascSortedItems.value;
      }
      Initialize();
      var sortedKeys := SortKeys(sortValues);
      SortedKeysCoverItems(sortValues, sortedKeys);
      sortValues := sortedKeys;
      GroupsAreKeyed(items, key);
      var asc, ascIdx := FlattenGroups(sortValues, sortValue2Item, key);
      FlattenIsStableSort(sortValues, items, key);
      ascSortedItems := Some(asc);
      ascSortValue2Idx := Some(ascIdx);
      sorted := asc;
    }

    /** Sorting the distinct keys keeps exactly the keys of `items`, now strictly ascending. */
    lemma SortedKeysCoverItems(firstSeen: seq<int>, sortedKeys: seq<int>)
      requires firstSeen == DistinctKeys(items, key)
      requires Ascending(sortedKeys) && multiset(sortedKeys) == multiset(firstSeen)
      requires Distinct(firstSeen) ==> StrictlyAscending(sortedKeys)
      ensures StrictlyAscending(sortedKeys)
      ensures forall k :: k in sortedKeys <==> HasKey(items, key, k)
      ensures forall k :: k in sortedKeys ==> k in Groups(items, key)
    {
      DistinctKeysCorrect(items, key);
      forall k ensures k in sortedKeys <==> k in firstSeen {
        assert k in sortedKeys <==> k in multiset(sortedKeys);
        assert k in firstSeen <==> k in multiset(firstSeen);
      }
    }

    /**
     * The descending order, computed on first use as the reverse of the
     * ascending order (which is computed first if need be); the first index
     * of each key in it is recorded alongside.
     */
    method SortByDescLazy() returns (sorted: seq<T>)
      requires Valid()
      modifies this
      ensures Valid()
      ensures descSortedItems == Some(sorted)
      ensures ascSortedItems.Some? && sorted == Reverse(ascSortedItems.value)
      ensures descSortValue2Idx == Some(FirstIndexMap(sorted, key))
      ensures old(descSortedItems).Some? ==> unchanged(this)
      ensures old(ascSortedItems).Some? ==>
        ascSortedItems == old(ascSortedItems) && ascSortValue2Idx == old(ascSortValue2Idx)
    {
      if descSortedItems.Some? {
        return descSortedItems.value;
      }
      var ascSorted := SortByAscLazy();
      var l := |ascSorted|;

      var descIdx: map<int, int> := map[];
      var zero: T := *;
      var desc := seq(l, _ => zero);
      var idx := 0;
      var i := l - 1;
      while i >= 0
        invariant -1 <= i < l
        invariant idx == l - 1 - i
        invariant |desc| == l
        invariant forall j :: 0 <= j < idx ==> desc[j] == ascSorted[l - 1 - j]
        invariant descIdx == FirstIndexMap(desc[..idx], key)
      {
        ghost var done := desc[..idx];
        desc := desc[idx := ascSorted[i]];
        assert desc[..idx + 1] == done + [ascSorted[i]];
        assert (done + [ascSorted[i]])[..idx] == done;

        var sortValue := key(ascSorted[i]);
        if sortValue !in descIdx {
          descIdx := descIdx[sortValue := idx];
        }

        idx := idx + 1;
        i := i - 1;
      }
      assert desc[..idx] == desc;
      assert desc == Reverse(ascSorted);
      descSortedItems := Some(desc);
      descSortValue2Idx := Some(descIdx);
      sorted := desc;
    }

    /** The ascending order: `items` sorted stably by key. */
    method SortByAsc() returns (sorted: seq<T>)
      requires Valid()
      modifies this
      ensures Valid()
      ensures IsStableSortOf(sorted, items, key)
      ensures ascSortedItems == Some(sorted)
      ensures old(ascSortedItems).Some? ==> unchanged(this)
      ensures descSortedItems == old(descSortedItems)
    {
      sorted := SortByAscLazy();
    }

    /** The descending order: exactly the ascending order reversed. */
    method SortByDesc() returns (sorted: seq<T>)
      requires Valid()
      modifies this
      ensures Valid()
      ensures ascSortedItems.Some? && sorted == Reverse(ascSortedItems.value)
      ensures descSortedItems == Some(sorted)
      ensures old(descSortedItems).Some? ==> unchanged(this)
      ensures old(ascSortedItems).Some? ==> ascSortedItems == old(ascSortedItems)
    {
      sorted := SortByDescLazy();
    }

    /**
     * The first index in `items` of the key of `item`, or `(Len(), false)`
     * when no item has that key.
     */
    method SearchFromOriginal(item: T) returns (idx: int, ok: bool)
      requires Valid()
      modifies this
      ensures Valid()
      ensures ok <==> HasKey(items, key, key(item))
      ensures ok ==> IsFirstIndex(items, key, key(item), idx)
      ensures !ok ==> idx == Len()
      ensures originalSortValue2Idx.Some?
      ensures old(originalSortValue2Idx).Some? ==> unchanged(this)
      ensures ascSortedItems == old(ascSortedItems) && descSortedItems == old(descSortedItems)
    {
      Initialize();
      FirstIndexMapCorrect(items, key);
      var m := originalSortValue2Idx.value;
      var k := key(item);
      ok := k in m;
      if ok {
        idx := m[k];
      } else {
        idx := Len();
      }
    }

    /**
     * The first index in the ascending order of the key of `item`, or
     * `(Len(), false)` when no item has that key.
     */
    method SearchFromSortedByAsc(item: T) returns (idx: int, ok: bool)
      requires Valid()
      modifies this
      ensures Valid()
      ensures ascSortedItems.Some?
      ensures ok <==> HasKey(items, key, key(item))
      ensures ok ==> IsFirstIndex(ascSortedItems.value, key, key(item), idx)
      ensures !ok ==> idx == Len()
      ensures old(ascSortedItems).Some? ==> unchanged(this)
      ensures descSortedItems == old(descSortedItems)
    {
      if ascSortValue2Idx.None? {
        var _ := SortByAscLazy();
      }
      var asc := ascSortedItems.value;
      FirstIndexMapCorrect(asc, key);
      StableSortPermutation(asc, items, key);
      var m := ascSortValue2Idx.value;
      var k := key(item);
      ok := k in m;
      if ok {
        idx := m[k];
      } else {
        idx := Len();
      }
    }

    /**
     * The first index in the descending order of the key of `item`, or
     * `(Len(), false)` when no item has that key.
     */
    method SearchFromSortedByDesc(item: T) returns (idx: int, ok: bool)
      requires Valid()
      modifies this
      ensures Valid()
      ensures descSortedItems.Some?
      ensures ok <==> HasKey(items, key, key(item))
      ensures ok ==> IsFirstIndex(descSortedItems.value, key, key(item), idx)
      ensures !ok ==> idx == Len()
      ensures old(descSortedItems).Some? ==> unchanged(this)
      ensures old(ascSortedItems).Some? ==>
        ascSortedItems == old(ascSortedItems) && ascSortValue2Idx == old(ascSortValue2Idx)
    {
      if descSortValue2Idx.None? {
        var _ := SortByDescLazy();
      }
      var desc := descSortedItems.value;
      FirstIndexMapCorrect(desc, key);
      DescendingView(ascSortedItems.value, items, key);
      var m := descSortValue2Idx.value;
      var k := key(item);
      ok := k in m;
      if ok {
        idx := m[k];
      } else {
        idx := Len();
      }
    }
  }
}
