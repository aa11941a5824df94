/** `AuthorityUtils`: granted authorities built from role names. */
module AuthorityUtils {
  import opened Wrappers

  /** Spring's `SimpleGrantedAuthority`: an authority named by its role string. */
  datatype GrantedAuthority = SimpleGrantedAuthority(authority: string)

  /** Why a collection refuses a change: `UnsupportedOperationException`. */
  datatype Unsupported = UnsupportedOperation

  /** A collection of authorities and whether it accepts changes (an `ArrayList`) or refuses
      them (an unmodifiable view). */
  datatype AuthorityCollection = AuthorityCollection(elements: seq<GrantedAuthority>, modifiable: bool)
  {
    /** `add`: appends on a modifiable collection and fails on an unmodifiable one. */
    function Add(a: GrantedAuthority): (r: Result<AuthorityCollection, Unsupported>)
      ensures r.Err? <==> !modifiable
      ensures r.Ok? ==> r.value.elements == elements + [a] && r.value.modifiable
    {
      if modifiable then Ok(AuthorityCollection(elements + [a], true)) else Err(UnsupportedOperation)
    }
  }

  /** Spring's `NO_AUTHORITIES`: the empty, unmodifiable list. */
  const NO_AUTHORITIES: AuthorityCollection := AuthorityCollection([], false)

  /** One authority per role, in the roles' order. */
  function AuthorityList(roles: seq<string>): (r: seq<GrantedAuthority>)
    ensures |r| == |roles| && forall i :: 0 <= i < |roles| ==> r[i].authority == roles[i]
  {
    if roles == [] then [] else AuthorityList(roles[..|roles| - 1]) + [SimpleGrantedAuthority(roles[|roles| - 1])]
  }

  /** `createAuthorityList`: the loop that appends one authority per role. */
  method CreateAuthorityList(roles: seq<string>) returns (authorities: seq<GrantedAuthority>)
    ensures authorities == AuthorityList(roles)
  {
    authorities := [];
    for i := 0 to |roles|
      invariant authorities == AuthorityList(roles[..i])
    {
      assert roles[..i + 1][..i] == roles[..i];
      authorities := authorities + [SimpleGrantedAuthority(roles[i])];
    }
    assert roles[..|roles|] == roles;
  }

  /** `createImmutableAuthorityCollection`: the same authorities behind an unmodifiable view. */
  function CreateImmutableAuthorityCollection(roles: seq<string>): (r: AuthorityCollection)
    ensures !r.modifiable
    ensures |r.elements| == |roles| && forall i :: 0 <= i < |roles| ==> r.elements[i].authority == roles[i]
  {
    AuthorityCollection(AuthorityList(roles), false)
  }

  /** The names of a list of authorities, in order: the inverse of building the list. */
  function Names(authorities: seq<GrantedAuthority>): (r: seq<string>)
    ensures |r| == |authorities| && forall i :: 0 <= i < |r| ==> r[i] == authorities[i].authority
  {
    if authorities == [] then [] else Names(authorities[..|authorities| - 1]) + [authorities[|authorities| - 1].authority]
  }

  /** Reading the names back gives the roles the list was built from. */
  lemma NamesOfAuthorityList(roles: seq<string>)
    ensures Names(AuthorityList(roles)) == roles
  {
  }

  /** Every change to an immutable authority collection is refused. */
  lemma ImmutableRefusesAdd(roles: seq<string>, a: GrantedAuthority)
    ensures CreateImmutableAuthorityCollection(roles).Add(a) == Err(UnsupportedOperation)
  {
  }
}
