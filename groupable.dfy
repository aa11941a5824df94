/** `Groupable.grouping`: groups items by key, keeps the first item of each group in order of
    first occurrence, and hands that item the non-null values the group's items construct. */
module Groupable {
  import opened Wrappers

  /** A groupable item: its `key()`, the result of its `construct()` (none for null) and the
      list that `setList` overwrites. */
  class Item<K, R> {
    const key: K
    const built: Option<R>
    var list: Option<seq<R>>

    constructor (key: K, built: Option<R>, list: Option<seq<R>>)
      ensures this.key == key && this.built == built && this.list == list
    {
      this.key := key;
      this.built := built;
      this.list := list;
    }
  }

  predicate HasKey<K(==), R>(items: seq<Item<K, R>>, k: K)
  {
    exists i :: 0 <= i < |items| && items[i].key == k
  }

  /** Item i is the first with its key. */
  predicate IsFirst<K(==), R>(items: seq<Item<K, R>>, i: int)
    requires 0 <= i < |items|
  {
    forall j :: 0 <= j < i ==> items[j].key != items[i].key
  }

  /** The first item of each key, in order of first occurrence: the keys of the `LinkedHashMap`
      that `groupingBy` fills, each with the head of its list. */
  function Firsts<K(==), R>(items: seq<Item<K, R>>): seq<Item<K, R>>
  {
    if items == [] then []
    else
      var init := items[..|items| - 1];
      var last := items[|items| - 1];
      if HasKey(init, last.key) then Firsts(init) else Firsts(init) + [last]
  }

  /** The non-null values constructed by the items with key `k`, in input order. */
  function Collected<K(==), R>(items: seq<Item<K, R>>, k: K): (r: seq<R>)
    ensures !HasKey(items, k) ==> r == []
  {
    if items == [] then []
    else
      var last := items[|items| - 1];
      assert forall j :: 0 <= j < |items| - 1 ==> items[..|items| - 1][j] == items[j];
      Collected(items[..|items| - 1], k) + (if last.key == k && last.built.Some? then [last.built.value] else [])
  }

  /** The list a group head ends with: the collected values, or its old list when the group
      constructed nothing. */
  function NewList<K(==), R>(items: seq<Item<K, R>>, head: Item<K, R>, oldList: Option<seq<R>>): Option<seq<R>>
  {
    if Collected(items, head.key) != [] then Some(Collected(items, head.key)) else oldList
  }

  /** The heads are exactly the first occurrences, in increasing input position: one per
      distinct key, and every key of the input has one. */
  lemma {:induction false} FirstsAreFirstOccurrences<K, R>(items: seq<Item<K, R>>) returns (idx: seq<nat>)
    ensures var f := Firsts(items);
      |idx| == |f|
      && (forall a :: 0 <= a < |idx| ==> idx[a] < |items| && IsFirst(items, idx[a]) && f[a] == items[idx[a]])
      && (forall a, b :: 0 <= a < b < |idx| ==> idx[a] < idx[b])
      && (forall i :: 0 <= i < |items| && IsFirst(items, i) ==> i in idx)
    ensures forall k :: HasKey(Firsts(items), k) <==> HasKey(items, k)
  {
    idx := FirstsIndices(items);
    FirstsKeys(items);
  }

  /** The positions of the heads, by induction on the input. */
  lemma {:induction false} FirstsIndices<K, R>(items: seq<Item<K, R>>) returns (idx: seq<nat>)
    ensures var f := Firsts(items);
      |idx| == |f|
      && (forall a :: 0 <= a < |idx| ==> idx[a] < |items| && IsFirst(items, idx[a]) && f[a] == items[idx[a]])
      && (forall a, b :: 0 <= a < b < |idx| ==> idx[a] < idx[b])
      && (forall i :: 0 <= i < |items| && IsFirst(items, i) ==> i in idx)
  {
    if items == [] {
      idx := [];
    } else {
      var n := |items| - 1;
      var init := items[..n];
      var last := items[n];
      var idx0 := FirstsIndices(init);
      assert forall j :: 0 <= j < n ==> init[j] == items[j];
      assert forall i :: 0 <= i < n ==> (IsFirst(init, i) <==> IsFirst(items, i));
      if HasKey(init, last.key) {
        idx := idx0;
        assert !IsFirst(items, n);
      } else {
        idx := idx0 + [n];
        assert IsFirst(items, n);
      }
    }
  }

  /** The heads have exactly the keys of the input, by induction on the input. */
  lemma {:induction false} FirstsKeys<K, R>(items: seq<Item<K, R>>)
    ensures forall k :: HasKey(Firsts(items), k) <==> HasKey(items, k)
  {
    if items != [] {
      var n := |items| - 1;
      var init := items[..n];
      var last := items[n];
      FirstsKeys(init);
      var f0 := Firsts(init);
      var f := Firsts(items);
      assert f == if HasKey(init, last.key) then f0 else f0 + [last];
      assert forall a :: 0 <= a < |f0| ==> f[a] == f0[a];
      forall k
        ensures HasKey(f, k) <==> HasKey(items, k)
      {
        if HasKey(items, k) {
          var i :| 0 <= i < |items| && items[i].key == k;
          if i < n || HasKey(init, k) {
            if i < n {
              assert init[i].key == k;
            }
            assert HasKey(f0, k);
            var a :| 0 <= a < |f0| && f0[a].key == k;
            assert f[a].key == k;
          } else {
            assert f[|f0|] == last;
          }
        }
        if HasKey(f, k) {
          var a :| 0 <= a < |f| && f[a].key == k;
          if a < |f0| {
            assert HasKey(f0, k);
            var i :| 0 <= i < n && init[i].key == k;
            assert items[i].key == k;
          } else {
            assert f[a] == last && items[n].key == k;
          }
        }
      }
    }
  }

  /** No two heads share a key, so no two heads are the same item. */
  lemma FirstsDistinct<K, R>(items: seq<Item<K, R>>)
    ensures var f := Firsts(items);
      forall a, b :: 0 <= a < b < |f| ==> f[a].key != f[b].key
  {
    var f := Firsts(items);
    var idx := FirstsAreFirstOccurrences(items);
    forall a, b | 0 <= a < b < |f|
      ensures f[a].key != f[b].key
    {
      assert idx[a] < idx[b] && IsFirst(items, idx[b]);
    }
  }

  lemma {:induction false} CollectedStep<K, R>(items: seq<Item<K, R>>, i: nat, k: K)
    requires i < |items|
    ensures Collected(items[..i + 1], k) ==
      Collected(items[..i], k) + (if items[i].key == k && items[i].built.Some? then [items[i].built.value] else [])
  {
    assert items[..i + 1][..i] == items[..i];
  }

  /** Extending the scanned prefix by one item: the heads gain it when its key is new, the keys
      gain its key, and its key's group gains its constructed value. */
  lemma PrefixStep<K, R>(items: seq<Item<K, R>>, i: nat)
    requires i < |items|
    ensures var p := items[i];
      Firsts(items[..i + 1]) == (if HasKey(items[..i], p.key) then Firsts(items[..i]) else Firsts(items[..i]) + [p])
    ensures forall k :: HasKey(items[..i + 1], k) <==> HasKey(items[..i], k) || k == items[i].key
    ensures forall k :: Collected(items[..i + 1], k) ==
                        Collected(items[..i], k) + (if items[i].key == k && items[i].built.Some? then [items[i].built.value] else [])
  {
    assert items[..i + 1][..i] == items[..i];
    assert forall j :: 0 <= j < i ==> items[..i + 1][j] == items[..i][j];
    forall k
      ensures Collected(items[..i + 1], k) ==
        Collected(items[..i], k) + (if items[i].key == k && items[i].built.Some? then [items[i].built.value] else [])
    {
      CollectedStep(items, i, k);
    }
    forall k
      ensures HasKey(items[..i + 1], k) <==> HasKey(items[..i], k) || k == items[i].key
    {
      if HasKey(items[..i + 1], k) {
        var j :| 0 <= j < i + 1 && items[..i + 1][j].key == k;
      }
      if k == items[i].key {
        assert items[..i + 1][i].key == k;
      }
    }
  }

  /** `grouping`: returns the head of each group in order of first occurrence and sets each
      head's list to its group's constructed values when there are any; no other item changes. */
  method Grouping<K(==), R>(products: seq<Item<K, R>>) returns (result: seq<Item<K, R>>)
    modifies set i | 0 <= i < |products| :: products[i]
    ensures result == Firsts(products)
    ensures forall i :: 0 <= i < |products| && products[i] in result ==>
      products[i].list == NewList(products, products[i], old(products[i].list))
    ensures forall i :: 0 <= i < |products| && products[i] !in result ==> products[i].list == old(products[i].list)
  {
    var groups;
    result, groups := GroupByKey(products);
    SetLists(products, result, groups);
  }

  /** The `groupingBy` pass into a `LinkedHashMap`: the heads, and per key its constructed
      values in input order. */
  method GroupByKey<K(==), R>(products: seq<Item<K, R>>) returns (heads: seq<Item<K, R>>, groups: map<K, seq<R>>)
    ensures heads == Firsts(products)
    ensures forall k :: k in groups <==> HasKey(products, k)
    ensures forall k :: k in groups ==> groups[k] == Collected(products, k)
  {
    heads := [];
    groups := map[];
    var i := 0;
    while i < |products|
      invariant 0 <= i <= |products|
      invariant heads == Firsts(products[..i])
      invariant forall k :: k in groups <==> HasKey(products[..i], k)
      invariant forall k :: k in groups ==> groups[k] == Collected(products[..i], k)
    {
      var p := products[i];
      PrefixStep(products, i);
      var group := if p.key in groups then groups[p.key] else [];
      if p.key !in groups {
        heads := heads + [p];
      }
      ghost var before := groups;
      groups := groups[p.key := group + (if p.built.Some? then [p.built.value] else [])];
      GroupsStep(products, i, before, groups);
      i := i + 1;
    }
    assert products[..i] == products;
  }

  /** One item of the `groupingBy` pass: adding its constructed value to its key's group keeps
      the groups equal to the values collected from the scanned prefix. */
  lemma GroupsStep<K, R>(products: seq<Item<K, R>>, i: nat, before: map<K, seq<R>>, after: map<K, seq<R>>)
    requires i < |products|
    requires forall k :: k in before <==> HasKey(products[..i], k)
    requires forall k :: k in before ==> before[k] == Collected(products[..i], k)
    requires var p := products[i];
      after == before[p.key := (if p.key in before then before[p.key] else []) + (if p.built.Some? then [p.built.value] else [])]
    ensures forall k :: k in after <==> HasKey(products[..i + 1], k)
    ensures forall k :: k in after ==> after[k] == Collected(products[..i + 1], k)
  {
    var p := products[i];
    PrefixStep(products, i);
    forall k | k in after
      ensures after[k] == Collected(products[..i + 1], k)
    {
      var added := if p.built.Some? then [p.built.value] else [];
      assert Collected(products[..i + 1], k) == Collected(products[..i], k) + (if p.key == k then added else []);
      if k != p.key {
        assert after[k] == before[k];
      } else if k !in before {
        assert !HasKey(products[..i], k);
      }
    }
  }

  /** What the pass over the groups needs of the heads: each is an input item with a key of
      the input, and no two of them are the same item. */
  lemma HeadsInProducts<K, R>(products: seq<Item<K, R>>) returns (idx: seq<nat>)
    ensures var heads := Firsts(products);
      |idx| == |heads| &&
      (forall a :: 0 <= a < |heads| ==> idx[a] < |products| && heads[a] == products[idx[a]]) &&
      (forall a, b :: 0 <= a < |heads| && 0 <= b < |heads| && a != b ==> heads[a] != heads[b])
  {
    idx := FirstsAreFirstOccurrences(products);
    FirstsDistinct(products);
  }

  /** The pass over the groups: each head gets its group's values when there are any. */
  method SetLists<K(==), R>(products: seq<Item<K, R>>, heads: seq<Item<K, R>>, groups: map<K, seq<R>>)
    requires heads == Firsts(products)
    requires forall k :: k in groups <==> HasKey(products, k)
    requires forall k :: k in groups ==> groups[k] == Collected(products, k)
    modifies set i | 0 <= i < |products| :: products[i]
    ensures forall i :: 0 <= i < |products| && products[i] in heads ==>
      products[i].list == NewList(products, products[i], old(products[i].list))
    ensures forall i :: 0 <= i < |products| && products[i] !in heads ==> products[i].list == old(products[i].list)
  {
    var idx := HeadsInProducts(products);
    var j := 0;
    while j < |heads|
      invariant 0 <= j <= |heads|
      invariant forall a :: 0 <= a < j ==> heads[a].list == NewList(products, heads[a], old(heads[a].list))
      invariant forall a :: j <= a < |heads| ==> heads[a].list == old(heads[a].list)
      invariant forall i :: 0 <= i < |products| && products[i] !in heads ==> products[i].list == old(products[i].list)
    {
      var h := heads[j];
      assert h == products[idx[j]] && h.key in groups;
      if groups[h.key] != [] {
        h.list := Some(groups[h.key]);
      }
      j := j + 1;
    }
    forall i | 0 <= i < |products| && products[i] in heads
      ensures products[i].list == NewList(products, products[i], old(products[i].list))
    {
      var a :| 0 <= a < |heads| && heads[a] == products[i];
    }
  }
}
