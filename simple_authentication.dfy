/** `SimpleAuthentication`: an always-authenticated token holding a principal and an
    unmodifiable list of authorities. */
module SimpleAuthentication {
  import opened Wrappers
  import opened AuthorityUtils
  import opened SerializablePrincipal

  datatype SimpleAuthentication = SimpleAuthentication(principal: Principal, authorities: AuthorityCollection)
  {
    function GetAuthorities(): (r: AuthorityCollection)
      ensures r == authorities
    {
      authorities
    }

    /** `getCredentials` and `getDetails`: always null. */
    function GetCredentials(): (r: Option<string>)
      ensures r.None?
    {
      None
    }

    function GetDetails(): (r: Option<string>)
      ensures r.None?
    {
      None
    }

    function GetPrincipal(): (r: Principal)
      ensures r == principal
    {
      principal
    }

    /** `isAuthenticated`: always true. */
    function IsAuthenticated(): (r: bool)
      ensures r
    {
      true
    }

    /** `setAuthenticated`: refused whatever the argument. */
    function SetAuthenticated(isAuthenticated: bool): (r: Result<SimpleAuthentication, Unsupported>)
      ensures r == Err(UnsupportedOperation)
    {
      Err(UnsupportedOperation)
    }

    /** `getName`: the principal's name. */
    function GetName(): (r: string)
      ensures r == principal.GetName()
    {
      principal.GetName()
    }
  }

  /** The constructor: null authority names give `NO_AUTHORITIES`; otherwise one authority per
      name, in order, in an unmodifiable collection. */
  function New(principal: Principal, authorities: Option<seq<string>>): (r: SimpleAuthentication)
    ensures r.principal == principal && r.GetName() == principal.name
    ensures authorities.None? ==> r.authorities == NO_AUTHORITIES
    ensures !r.authorities.modifiable
    ensures authorities.Some? ==> (|r.authorities.elements| == |authorities.value| &&
      forall i :: 0 <= i < |authorities.value| ==> r.authorities.elements[i].authority == authorities.value[i])
  {
    if authorities.None? then SimpleAuthentication(principal, NO_AUTHORITIES)
    else SimpleAuthentication(principal, CreateImmutableAuthorityCollection(authorities.value))
  }

  /** However it was built, a token's authorities cannot be changed afterwards. */
  lemma AuthoritiesAreFixed(principal: Principal, authorities: Option<seq<string>>, a: GrantedAuthority)
    ensures New(principal, authorities).GetAuthorities().Add(a).Err?
  {
  }
}
