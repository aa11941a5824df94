/** `RedisBackedRoleHierarchy` and the default `getReachableGrantedAuthorities` of
    `CachedRoleHierarchy`: each parent authority's children are a set stored under a namespaced
    key, and the reachable authorities are the given ones plus their direct children. */
module RoleHierarchy {
  import opened Wrappers
  import opened AuthorityUtils

  const ROLE_HIERARCHY_NAMESPACE: string := "infra:roleHierarchy"

  /** `getKeyWithNamespace`: the namespace, a colon, then the key. */
  function KeyWithNamespace(key: string): (r: string)
    ensures |r| == |ROLE_HIERARCHY_NAMESPACE| + 1 + |key|
    ensures r[..|ROLE_HIERARCHY_NAMESPACE| + 1] == "infra:roleHierarchy:" && r[|ROLE_HIERARCHY_NAMESPACE| + 1..] == key
  {
    ROLE_HIERARCHY_NAMESPACE + ":" + key
  }

  /** Different parents never share a key. */
  lemma KeyInjective(a: string, b: string)
    requires KeyWithNamespace(a) == KeyWithNamespace(b)
    ensures a == b
  {
    assert a == KeyWithNamespace(a)[|ROLE_HIERARCHY_NAMESPACE| + 1..];
  }

  predicate Distinct(s: seq<string>)
  {
    forall i, j :: 0 <= i < j < |s| ==> s[i] != s[j]
  }

  function Concat(segments: seq<seq<string>>): seq<string>
  {
    if segments == [] then [] else Concat(segments[..|segments| - 1]) + segments[|segments| - 1]
  }

  /** The members of a concatenation are those of its segments. */
  lemma {:induction false} ConcatMembers(segments: seq<seq<string>>)
    ensures forall x :: x in Concat(segments) <==> exists i :: 0 <= i < |segments| && x in segments[i]
  {
    if segments != [] {
      var n := |segments| - 1;
      ConcatMembers(segments[..n]);
      assert forall i :: 0 <= i < n ==> segments[..n][i] == segments[i];
    }
  }

  /** Iterating a hash set: each member once, in an order the model leaves open. */
  method Enumerate(s: set<string>) returns (xs: seq<string>)
    ensures Distinct(xs) && forall x :: x in xs <==> x in s
  {
    xs := [];
    var rest := s;
    while rest != {}
      invariant Distinct(xs)
      invariant forall x :: x in s <==> x in rest || x in xs
      invariant forall x :: x in xs ==> x !in rest
      decreases |rest|
    {
      var x :| x in rest;
      xs := xs + [x];
      rest := rest - {x};
    }
  }

  /** Why `setAuthorities` fails: Redis refuses to add an empty list of members. */
  datatype StoreError = NoMembers

  /** The hierarchy over a Redis keyspace, modelled as a map from key to set members. */
  class RedisBackedRoleHierarchy {
    var store: map<string, set<string>>

    /** Redis keeps no empty set under a key. */
    predicate Valid()
      reads this
    {
      forall k :: k in store ==> store[k] != {}
    }

    constructor (store: map<string, set<string>>)
      requires forall k :: k in store ==> store[k] != {}
      ensures this.store == store && Valid()
    {
      this.store := store;
    }

    /** `getAuthorities(parent)`: the members stored under the parent's key, empty when the key
        is absent. */
    function GetAuthorities(parent: string): (r: set<string>)
      reads this
      ensures KeyWithNamespace(parent) !in store ==> r == {}
    {
      var key := KeyWithNamespace(parent);
      if key in store then store[key] else {}
    }

    /** `getAuthorities(parents)`: each parent's members in turn, one after another, so a child
        of several parents occurs once per parent. */
    method GetAuthoritiesOf(parents: seq<string>) returns (children: seq<string>, ghost segments: seq<seq<string>>)
      ensures forall x :: x in children <==> exists i :: 0 <= i < |parents| && x in GetAuthorities(parents[i])
      ensures |segments| == |parents| && children == Concat(segments)
      ensures forall i :: 0 <= i < |parents| ==>
        Distinct(segments[i]) && forall x :: x in segments[i] <==> x in GetAuthorities(parents[i])
    {
      children := [];
      segments := [];
      for i := 0 to |parents|
        invariant |segments| == i && children == Concat(segments)
        invariant forall k :: 0 <= k < i ==>
          Distinct(segments[k]) && forall x :: x in segments[k] <==> x in GetAuthorities(parents[k])
      {
        var members := Enumerate(GetAuthorities(parents[i]));
        children := children + members;
        segments := segments + [members];
        assert segments[..i] == segments[..|segments| - 1];
      }
      ConcatMembers(segments);
    }

    /** `setAuthorities`: deletes the parent's key, then adds the given members; with no
        members the add fails after the delete, leaving the parent without children. Other
        parents keep their children. */
    method SetAuthorities(parent: string, authorities: seq<string>) returns (err: Option<StoreError>)
      requires Valid()
      modifies this
      ensures Valid()
      ensures err.Some? <==> authorities == []
      ensures store == if authorities == [] then old(store) - {KeyWithNamespace(parent)}
        else old(store)[KeyWithNamespace(parent) := set x | x in authorities]
      ensures forall x :: x in GetAuthorities(parent) <==> x in authorities
      ensures forall q :: q != parent ==> GetAuthorities(q) == old(GetAuthorities(q))
    {
      var key := KeyWithNamespace(parent);
      store := store - {key};
      if authorities == [] {
        return Some(NoMembers);
      }
      var members := set x | x in authorities;
      assert authorities[0] in members;
      store := store[key := members];
      forall q | q != parent
        ensures KeyWithNamespace(q) != key
      {
        if KeyWithNamespace(q) == key {
          KeyInjective(q, parent);
        }
      }
      return None;
    }

    /** The names given, and every direct child of a name given: one level, no further. */
    ghost predicate OneLevel(authorities: seq<GrantedAuthority>, n: string)
      reads this
    {
      (exists i :: 0 <= i < |authorities| && authorities[i].authority == n) ||
      (exists i :: 0 <= i < |authorities| && n in GetAuthorities(authorities[i].authority))
    }

    /** `getReachableGrantedAuthorities`: queues the distinct given names, and for each name
        polled adds it and its direct children to the result set; children are not queued. The
        result has one authority per collected name. */
    method GetReachableGrantedAuthorities(authorities: seq<GrantedAuthority>) returns (reachable: seq<GrantedAuthority>)
      ensures Distinct(Names(reachable))
      ensures forall n :: n in Names(reachable) <==> OneLevel(authorities, n)
    {
      var authorityNames := set i | 0 <= i < |authorities| :: authorities[i].authority;
      var queue := Enumerate(authorityNames);
      var names := authorityNames;
      var i := 0;
      while i < |queue|
        invariant 0 <= i <= |queue|
        invariant forall n :: n in names <==>
          n in authorityNames || exists k :: 0 <= k < i && n in GetAuthorities(queue[k])
      {
        var parent := queue[i];
        names := names + {parent} + GetAuthorities(parent);
        i := i + 1;
      }
      forall n
        ensures n in names <==> OneLevel(authorities, n)
      {
        if n in names && n !in authorityNames {
          var k :| 0 <= k < |queue| && n in GetAuthorities(queue[k]);
          assert queue[k] in authorityNames;
          var j :| 0 <= j < |authorities| && authorities[j].authority == queue[k];
        }
        if OneLevel(authorities, n) && n !in authorityNames {
          var j :| 0 <= j < |authorities| && n in GetAuthorities(authorities[j].authority);
          assert authorities[j].authority in queue;
        }
      }
      var ordered := Enumerate(names);
      reachable := CreateAuthorityList(ordered);
      NamesOfAuthorityList(ordered);
    }
  }
}
