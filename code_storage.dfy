/** `RedisIdentityWrapper` and `RedisBackedVerificationCodeStorage`: the Redis keys derived from
    an identity, and the code and request-restriction entries kept under them. */
module CodeStorage {
  import opened Wrappers
  import opened VerificationIdentity

  const VERIFICATION_CODE_NAMESPACE: string := "infra:verificationCode"
  const REQUEST_RESTRICT_NAMESPACE: string := "infra:verificationCode:restrict"
  /** Time to live, in minutes, of a stored code and of a restrict key. */
  const CODE_EXPIRE_MINUTES: nat := 5
  const REQUEST_RESTRICT_MINUTES: nat := 1

  /** The keys of one identity: a restrict key per identity-map entry, and the code key. */
  datatype RedisIdentityWrapper = RedisIdentityWrapper(restrictKeys: seq<string>, codeKey: string)

  /** `namespace + ":" + key + ":" + value` */
  function RestrictKey(namespace: string, entry: (string, string)): string
  {
    namespace + ":" + entry.0 + ":" + entry.1
  }

  /** The wrapper's constructor: one restrict key per entry, in the map's order, and a code key
      made of the code namespace and the identity's name alone. */
  function NewWrapper(identity: Identity, requestRestrictNamespace: string, codeNamespace: string)
    : (w: RedisIdentityWrapper)
    ensures |w.restrictKeys| == |identity.entries|
    ensures forall i :: 0 <= i < |identity.entries| ==>
      w.restrictKeys[i] == RestrictKey(requestRestrictNamespace, identity.entries[i])
    ensures w.codeKey == codeNamespace + ":" + identity.name
  {
    RedisIdentityWrapper(
      seq(|identity.entries|, i requires 0 <= i < |identity.entries| => RestrictKey(requestRestrictNamespace, identity.entries[i])),
      codeNamespace + ":" + identity.name)
  }

  /** `wrap`: the wrapper under this storage's namespaces. */
  function Wrap(identity: Identity): (w: RedisIdentityWrapper)
    ensures |w.restrictKeys| == |identity.entries|
    ensures forall i :: 0 <= i < |identity.entries| ==>
      w.restrictKeys[i] == "infra:verificationCode:restrict:" + identity.entries[i].0 + ":" + identity.entries[i].1
    ensures w.codeKey == "infra:verificationCode:" + identity.name
  {
    NewWrapper(identity, REQUEST_RESTRICT_NAMESPACE, VERIFICATION_CODE_NAMESPACE)
  }

  /** Two identities with one name share their code key, whatever their maps hold. */
  lemma CodeKeyByNameOnly(a: Identity, b: Identity)
    requires a.name == b.name
    ensures Wrap(a).codeKey == Wrap(b).codeKey
  {
  }

  /** For the identities the public constructor builds, the code key is none of the restrict
      keys, so `set` and `clear` touch two distinct keys. */
  lemma NameIdentityKeysDistinct(name: string)
    ensures Wrap(NameAndRemoteAddr(name)).codeKey !in Wrap(NameAndRemoteAddr(name)).restrictKeys
  {
    var w := Wrap(NameAndRemoteAddr(name));
    assert |w.restrictKeys| == 1 && |w.restrictKeys[0]| == |w.codeKey| + 14;
  }

  /** As written, the code namespace is a prefix of the restrict namespace, so a user whose name
      is "restrict:name:" followed by another user's name has that user's restrict key as code
      key: storing a code for "restrict:name:alice" marks "alice" as restricted. */
  lemma CodeKeyIsAnotherUsersRestrictKey(n: string, store: map<string, Entry>, code: string)
    ensures var victim := Wrap(NameAndRemoteAddr(n));
      var other := Wrap(NameAndRemoteAddr("restrict:name:" + n));
      |victim.restrictKeys| == 1 && other.codeKey == victim.restrictKeys[0] &&
      victim.restrictKeys[0] in Written(store, other, code)
  {
    var victim := Wrap(NameAndRemoteAddr(n));
    var other := Wrap(NameAndRemoteAddr("restrict:name:" + n));
    assert NameAndRemoteAddr(n).entries == [(NAME, n)];
    NamespacesOverlap();
    assert victim.restrictKeys[0] == REQUEST_RESTRICT_NAMESPACE + ":" + NAME + ":" + n;
    assert other.codeKey == VERIFICATION_CODE_NAMESPACE + ":" + ("restrict:name:" + n);
  }

  /** The restrict namespace and the "name" entry spell the code namespace followed by
      "restrict:name:". */
  lemma NamespacesOverlap()
    ensures REQUEST_RESTRICT_NAMESPACE + ":" + NAME + ":" == VERIFICATION_CODE_NAMESPACE + ":" + "restrict:name:"
  {
  }

  /** A code namespace that is not a prefix of the restrict namespace. */
  const CORRECTED_CODE_NAMESPACE: string := "infra:verificationCode:code"

  /** `wrap` with the code keys under their own namespace. */
  function WrapCorrected(identity: Identity): (w: RedisIdentityWrapper)
    ensures w.restrictKeys == Wrap(identity).restrictKeys
    ensures w.codeKey == CORRECTED_CODE_NAMESPACE + ":" + identity.name
  {
    NewWrapper(identity, REQUEST_RESTRICT_NAMESPACE, CORRECTED_CODE_NAMESPACE)
  }

  /** With the corrected namespace, no identity's code key is any identity's restrict key. */
  lemma CorrectedKeysDisjoint(a: Identity, b: Identity)
    ensures WrapCorrected(a).codeKey !in WrapCorrected(b).restrictKeys
  {
    var c := WrapCorrected(a).codeKey;
    assert c[23] == 'c';
    forall i | 0 <= i < |b.entries|
      ensures WrapCorrected(b).restrictKeys[i] != c
    {
      assert WrapCorrected(b).restrictKeys[i][23] == 'r';
    }
  }

  /** A stored value with the time to live it was written with. */
  datatype Entry = Entry(value: string, ttlMinutes: nat)

  /** The store after writing the code key under each restrict key, in order. */
  function WriteRestrictKeys(store: map<string, Entry>, keys: seq<string>, codeKey: string): (r: map<string, Entry>)
    ensures forall k :: k in r <==> k in store || k in keys
    ensures forall k :: k in keys ==> r[k] == Entry(codeKey, REQUEST_RESTRICT_MINUTES)
    ensures forall k :: k in store && k !in keys ==> r[k] == store[k]
  {
    if keys == [] then store
    else WriteRestrictKeys(store, keys[..|keys| - 1], codeKey)[keys[|keys| - 1] := Entry(codeKey, REQUEST_RESTRICT_MINUTES)]
  }

  /** The store after `set`: the restrict keys, then the code key. */
  function Written(store: map<string, Entry>, w: RedisIdentityWrapper, code: string): map<string, Entry>
  {
    WriteRestrictKeys(store, w.restrictKeys, w.codeKey)[w.codeKey := Entry(code, CODE_EXPIRE_MINUTES)]
  }

  /** The store after `clear`: the code key and every restrict key removed. */
  function Cleared(store: map<string, Entry>, w: RedisIdentityWrapper): map<string, Entry>
  {
    store - ({w.codeKey} + set k | k in w.restrictKeys)
  }

  /** After `set` the code is stored for 5 minutes and every other restrict key points at the
      code key for 1 minute; no other key changes. */
  lemma WrittenEntries(store: map<string, Entry>, w: RedisIdentityWrapper, code: string)
    ensures var s := Written(store, w, code);
      s[w.codeKey] == Entry(code, CODE_EXPIRE_MINUTES)
      && (forall k :: k in w.restrictKeys && k != w.codeKey ==> s[k] == Entry(w.codeKey, REQUEST_RESTRICT_MINUTES))
      && (forall k :: k != w.codeKey && k !in w.restrictKeys ==> (k in s <==> k in store) && (k in store ==> s[k] == store[k]))
  {
  }

  /** `clear` removes exactly the identity's keys. */
  lemma ClearedEntries(store: map<string, Entry>, w: RedisIdentityWrapper)
    ensures var s := Cleared(store, w);
      w.codeKey !in s && (forall k :: k in w.restrictKeys ==> k !in s)
      && (forall k :: k != w.codeKey && k !in w.restrictKeys ==> (k in s <==> k in store) && (k in store ==> s[k] == store[k]))
  {
  }

  /** The storage over a Redis keyspace, modelled as a map from key to value. */
  class RedisBackedVerificationCodeStorage {
    var store: map<string, Entry>

    constructor (store: map<string, Entry>)
      ensures this.store == store
    {
      this.store := store;
    }

    /** `get`: the value under the code key, if any. */
    function Get(w: RedisIdentityWrapper): (r: Option<string>)
      reads this
      ensures r.None? <==> w.codeKey !in store
      ensures r.Some? ==> r.value == store[w.codeKey].value
    {
      if w.codeKey in store then Some(store[w.codeKey].value) else None
    }

    /** `isRequestRestricted`: some restrict key is present. */
    predicate IsRequestRestricted(w: RedisIdentityWrapper)
      reads this
      ensures IsRequestRestricted(w) <==> exists k :: k in w.restrictKeys && k in store
    {
      exists i :: 0 <= i < |w.restrictKeys| && w.restrictKeys[i] in store
    }

    /** `set`: writes each restrict key, then the code. */
    method Set(w: RedisIdentityWrapper, code: string)
      modifies this
      ensures store == Written(old(store), w, code)
      ensures Get(w) == Some(code)
      ensures IsRequestRestricted(w) <==> w.restrictKeys != []
    {
      for i := 0 to |w.restrictKeys|
        invariant store == WriteRestrictKeys(old(store), w.restrictKeys[..i], w.codeKey)
      {
        assert w.restrictKeys[..i + 1][..i] == w.restrictKeys[..i];
        store := store[w.restrictKeys[i] := Entry(w.codeKey, REQUEST_RESTRICT_MINUTES)];
      }
      assert w.restrictKeys[..|w.restrictKeys|] == w.restrictKeys;
      store := store[w.codeKey := Entry(code, CODE_EXPIRE_MINUTES)];
      if w.restrictKeys != [] {
        assert w.restrictKeys[0] in store;
      }
    }

    /** `clear`: deletes the code key, then each restrict key. */
    method Clear(w: RedisIdentityWrapper)
      modifies this
      ensures store == Cleared(old(store), w)
      ensures Get(w).None? && !IsRequestRestricted(w)
    {
      store := store - {w.codeKey};
      for i := 0 to |w.restrictKeys|
        invariant forall k :: k in store <==> k in old(store) && k != w.codeKey && k !in w.restrictKeys[..i]
        invariant forall k :: k in store ==> store[k] == old(store)[k]
      {
        assert w.restrictKeys[..i + 1] == w.restrictKeys[..i] + [w.restrictKeys[i]];
        store := store - {w.restrictKeys[i]};
      }
      assert w.restrictKeys[..|w.restrictKeys|] == w.restrictKeys;
      assert store == Cleared(old(store), w);
    }

    /** A key's time to live running out: Redis drops it. */
    method Expire(key: string)
      modifies this
      ensures store == old(store) - {key}
    {
      store := store - {key};
    }
  }
}
