/** `BeanUtils`: SQL-style joins of two lists on a key, one-to-one and one-to-many, and the key
    set used to fetch the right-hand list. */
module BeanUtils {
  import opened Wrappers

  /** Some element of `list` has key `k`. */
  predicate HasKey<T, K(==, !new)>(list: seq<T>, key: T -> K, k: K)
  {
    exists i :: 0 <= i < |list| && key(list[i]) == k
  }

  /** `getKeySet`: the keys of all elements, collected one by one. */
  function KeySet<T, K(==, !new)>(list: seq<T>, key: T -> K): (r: set<K>)
    ensures forall k :: k in r <==> HasKey(list, key, k)
  {
    if list == [] then {}
    else
      var init := list[..|list| - 1];
      assert forall i :: 0 <= i < |init| ==> init[i] == list[i];
      KeySet(init, key) + {key(list[|list| - 1])}
  }

  predicate DistinctKeys<T, K(==, !new)>(list: seq<T>, key: T -> K)
  {
    forall i, j :: 0 <= i < j < |list| ==> key(list[i]) != key(list[j])
  }

  /** `Collectors.toMap(rightKey, identity)`: each element under its key; a second element with
      a key already present aborts the collection, reported here by that key. */
  function KeyIndex<R, K(==, !new)>(right: seq<R>, key: R -> K): Result<map<K, R>, K>
  {
    if right == [] then Ok(map[])
    else
      match KeyIndex(right[..|right| - 1], key)
      case Err(k) => Err(k)
      case Ok(m) =>
        var r := right[|right| - 1];
        if key(r) in m then Err(key(r)) else Ok(m[key(r) := r])
  }

  /** A key index maps each key to the element that has it, and holds every element. */
  lemma {:induction false} KeyIndexEntries<R, K(!new)>(right: seq<R>, key: R -> K)
    requires KeyIndex(right, key).Ok?
    ensures var m := KeyIndex(right, key).value;
      (forall k :: k in m ==> key(m[k]) == k && m[k] in right)
      && (forall j :: 0 <= j < |right| ==> key(right[j]) in m && m[key(right[j])] == right[j])
  {
    if right != [] {
      var init := right[..|right| - 1];
      KeyIndexEntries(init, key);
      assert forall j :: 0 <= j < |init| ==> init[j] == right[j];
    }
  }

  /** The index is built exactly when no two elements share a key; otherwise the reported key
      is one that two elements share. */
  lemma {:induction false} KeyIndexOkIffDistinct<R, K(!new)>(right: seq<R>, key: R -> K)
    ensures KeyIndex(right, key).Ok? <==> DistinctKeys(right, key)
    ensures KeyIndex(right, key).Err? ==> exists i, j :: (0 <= i < j < |right| &&
      key(right[i]) == key(right[j]) == KeyIndex(right, key).error)
  {
    if right != [] {
      var init := right[..|right| - 1];
      var r := right[|right| - 1];
      KeyIndexOkIffDistinct(init, key);
      assert forall j :: 0 <= j < |init| ==> init[j] == right[j];
      if KeyIndex(init, key).Ok? {
        KeyIndexEntries(init, key);
        var m := KeyIndex(init, key).value;
        if key(r) in m {
          var k :| 0 <= k < |init| && init[k] == m[key(r)];
          assert key(right[k]) == key(right[|right| - 1]);
        }
      }
    }
  }

  /** `leftJoin`: one pair per left element, with the right element of the same key, or none.
      The right list is indexed first, so a repeated right key fails the whole join. */
  function LeftJoin<L, R, K(==, !new)>(left: seq<L>, leftKey: L -> K, right: seq<R>, rightKey: R -> K)
    : (r: Result<seq<(L, Option<R>)>, K>)
    ensures r.Ok? ==> |r.value| == |left| && forall i :: 0 <= i < |left| ==> r.value[i].0 == left[i]
  {
    match KeyIndex(right, rightKey)
    case Err(k) => Err(k)
    case Ok(m) =>
      Ok(seq(|left|, i requires 0 <= i < |left| =>
        (left[i], if leftKey(left[i]) in m then Some(m[leftKey(left[i])]) else None)))
  }

  /** The join fails exactly on a repeated right key, whatever the left list; a successful join
      pairs each left element with the right element sharing its key, or with none when no
      right element has that key. */
  lemma LeftJoinMatches<L, R, K(!new)>(left: seq<L>, leftKey: L -> K, right: seq<R>, rightKey: R -> K)
    ensures LeftJoin(left, leftKey, right, rightKey).Ok? <==> DistinctKeys(right, rightKey)
    ensures LeftJoin(left, leftKey, right, rightKey).Err? ==>
      !DistinctKeys(right, rightKey) && HasKey(right, rightKey, LeftJoin(left, leftKey, right, rightKey).error)
    ensures LeftJoin(left, leftKey, right, rightKey).Ok? ==>
      var pairs := LeftJoin(left, leftKey, right, rightKey).value;
      forall i :: 0 <= i < |left| ==>
        (pairs[i].1.Some? ==> pairs[i].1.value in right && rightKey(pairs[i].1.value) == leftKey(left[i]))
        && (pairs[i].1.None? <==> !HasKey(right, rightKey, leftKey(left[i])))
  {
    KeyIndexOkIffDistinct(right, rightKey);
    if KeyIndex(right, rightKey).Ok? {
      KeyIndexEntries(right, rightKey);
    }
  }

  /** The right elements with key `k`, in right-list order. */
  function Matching<R, K(==, !new)>(right: seq<R>, key: R -> K, k: K): (r: seq<R>)
    ensures forall j :: 0 <= j < |r| ==> r[j] in right && key(r[j]) == k
    ensures r == [] <==> !HasKey(right, key, k)
  {
    if right == [] then []
    else
      assert forall j :: 0 <= j < |right| - 1 ==> right[1..][j] == right[j + 1];
      (if key(right[0]) == k then [right[0]] else []) + Matching(right[1..], key, k)
  }

  /** `Collectors.groupingBy(rightKey)`: each element appended to the list of its key. */
  function GroupBy<R, K(==, !new)>(right: seq<R>, key: R -> K): map<K, seq<R>>
  {
    if right == [] then map[]
    else
      var m := GroupBy(right[..|right| - 1], key);
      var r := right[|right| - 1];
      m[key(r) := (if key(r) in m then m[key(r)] else []) + [r]]
  }

  lemma {:induction false} MatchingAppend<R, K(!new)>(right: seq<R>, r: R, key: R -> K, k: K)
    ensures Matching(right + [r], key, k) == Matching(right, key, k) + (if key(r) == k then [r] else [])
  {
    if right != [] {
      assert (right + [r])[1..] == right[1..] + [r];
      MatchingAppend(right[1..], r, key, k);
    }
  }

  /** Grouping keeps exactly the keys that occur, each with its matching elements in order. */
  lemma {:induction false} GroupByMatching<R, K(!new)>(right: seq<R>, key: R -> K)
    ensures forall k :: k in GroupBy(right, key) <==> HasKey(right, key, k)
    ensures forall k :: k in GroupBy(right, key) ==> GroupBy(right, key)[k] == Matching(right, key, k)
  {
    if right != [] {
      var init := right[..|right| - 1];
      var r := right[|right| - 1];
      GroupByMatching(init, key);
      assert right == init + [r];
      forall k
        ensures Matching(right, key, k) == Matching(init, key, k) + (if key(r) == k then [r] else [])
      {
        MatchingAppend(init, r, key, k);
      }
      assert forall j :: 0 <= j < |init| ==> init[j] == right[j];
    }
  }

  /** `leftJoinMany`: one pair per left element, with all right elements of its key, or none
      (null, not an empty list) when no right element has that key. */
  function LeftJoinMany<L, R, K(==, !new)>(left: seq<L>, leftKey: L -> K, right: seq<R>, rightKey: R -> K)
    : (r: seq<(L, Option<seq<R>>)>)
    ensures |r| == |left| && forall i :: 0 <= i < |left| ==> r[i].0 == left[i]
  {
    var m := GroupBy(right, rightKey);
    seq(|left|, i requires 0 <= i < |left| =>
      (left[i], if leftKey(left[i]) in m then Some(m[leftKey(left[i])]) else None))
  }

  /** Each left element gets the non-empty list of right elements sharing its key, in
      right-list order, or none when there is no such element. */
  lemma LeftJoinManyMatches<L, R, K(!new)>(left: seq<L>, leftKey: L -> K, right: seq<R>, rightKey: R -> K)
    ensures var pairs := LeftJoinMany(left, leftKey, right, rightKey);
      forall i :: 0 <= i < |left| ==>
        (pairs[i].1.None? <==> !HasKey(right, rightKey, leftKey(left[i])))
        && (pairs[i].1.Some? ==> pairs[i].1.value == Matching(right, rightKey, leftKey(left[i])) && pairs[i].1.value != [])
  {
    GroupByMatching(right, rightKey);
  }
}
