/** `SerializablePrincipalObject`: a principal identified by its name alone, and Java's
    `String.hashCode` that its hash code delegates to. */
module SerializablePrincipal {
  import opened Wrappers
  import opened JavaInt

  /** The UTF-16 code units Java stores for a string: one per character of the Basic
      Multilingual Plane, a surrogate pair for any other character. */
  function Utf16(s: string): (us: seq<int>)
    ensures forall i :: 0 <= i < |us| ==> 0 <= us[i] < 0x1_0000
    ensures |us| >= |s|
  {
    if s == [] then []
    else
      var c := s[|s| - 1] as int;
      Utf16(s[..|s| - 1]) +
        (if c < 0x1_0000 then [c] else [0xD800 + (c - 0x1_0000) / 0x400, 0xDC00 + (c - 0x1_0000) % 0x400])
  }

  /** `String.hashCode`: `h = 31 * h + unit` over the code units in `int` arithmetic. */
  function HashUnits(us: seq<int>): (h: int)
    ensures IsInt(h)
  {
    if us == [] then 0 else Wrap32(31 * HashUnits(us[..|us| - 1]) + us[|us| - 1])
  }

  function Pow31(n: nat): (p: int)
    ensures p >= 1
  {
    if n == 0 then 1 else 31 * Pow31(n - 1)
  }

  /** The documented formula s[0]*31^(n-1) + s[1]*31^(n-2) + ... + s[n-1], computed exactly. */
  function Polynomial(us: seq<int>): int
  {
    if us == [] then 0 else us[0] * Pow31(|us| - 1) + Polynomial(us[1..])
  }

  lemma {:induction false} PolynomialAppend(us: seq<int>, u: int)
    ensures Polynomial(us + [u]) == 31 * Polynomial(us) + u
  {
    if us != [] {
      assert (us + [u])[1..] == us[1..] + [u];
      PolynomialAppend(us[1..], u);
      assert us[0] * Pow31(|us|) == 31 * (us[0] * Pow31(|us| - 1));
    } else {
      assert Polynomial([u]) == u * Pow31(0) + Polynomial([]);
    }
  }

  /** The hash is the documented polynomial reduced to 32 bits. */
  lemma {:induction false} HashIsPolynomial(us: seq<int>)
    ensures (HashUnits(us) - Polynomial(us)) % 0x1_0000_0000 == 0
  {
    if us != [] {
      var init := us[..|us| - 1];
      var u := us[|us| - 1];
      HashIsPolynomial(init);
      assert us == init + [u];
      PolynomialAppend(init, u);
      HashStep(HashUnits(init), Polynomial(init), u, HashUnits(us));
    }
  }

  /** If h agrees with p modulo 2^32, then any wrap of 31 * h + u agrees with 31 * p + u. */
  lemma HashStep(h: int, p: int, u: int, next: int)
    requires (h - p) % 0x1_0000_0000 == 0
    requires (next - (31 * h + u)) % 0x1_0000_0000 == 0
    ensures (next - (31 * p + u)) % 0x1_0000_0000 == 0
  {
    var t := (h - p) / 0x1_0000_0000;
    assert h - p == 0x1_0000_0000 * t;
    var t2 := (next - (31 * h + u)) / 0x1_0000_0000;
    assert next - (31 * h + u) == 0x1_0000_0000 * t2;
    assert next - (31 * p + u) == 0x1_0000_0000 * (t2 + 31 * t);
  }

  /** A principal; only its name is kept. */
  datatype Principal = Principal(name: string)
  {
    /** `getName` and `toString` both return the name. */
    function GetName(): (r: string)
      ensures r == name
    {
      name
    }

    function ToString(): (r: string)
      ensures r == GetName()
    {
      GetName()
    }

    /** `equals`: true iff the other object is a principal with an equal name; none models
        null and objects of any other class. */
    predicate EqualsObject(o: Option<Principal>)
      ensures o.None? ==> !EqualsObject(o)
      ensures o.Some? ==> (EqualsObject(o) <==> o.value.GetName() == GetName())
    {
      o.Some? && o.value.name == name
    }

    /** `hashCode`: the name's `String.hashCode`. */
    function HashCode(): (h: int)
      ensures IsInt(h)
    {
      HashUnits(Utf16(name))
    }
  }

  /** `equals` is reflexive, symmetric and transitive, and agrees with equality of names. */
  lemma EqualsIsEquivalence(p: Principal, q: Principal, r: Principal)
    ensures p.EqualsObject(Some(p))
    ensures p.EqualsObject(Some(q)) <==> q.EqualsObject(Some(p))
    ensures p.EqualsObject(Some(q)) && q.EqualsObject(Some(r)) ==> p.EqualsObject(Some(r))
    ensures p.EqualsObject(Some(q)) <==> p == q
    ensures !p.EqualsObject(None)
  {
  }

  /** Equal principals have equal hash codes. */
  lemma EqualsHashCode(p: Principal, q: Principal)
    requires p.EqualsObject(Some(q))
    ensures p.HashCode() == q.HashCode()
  {
  }
}
