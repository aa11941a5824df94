/** `NameAndRemoteAddrIdentity`: who asks for a verification code, as a name and an unmodifiable
    identity map ("name", and "addr" when a remote address is known). */
module VerificationIdentity {
  import opened Wrappers
  import opened Text

  const NAME: string := "name"
  const ADDR: string := "addr"

  /** An identity: its name and its identity map's entries in iteration order. */
  datatype Identity = Identity(name: string, entries: seq<(string, string)>)
  {
    /** The entries form a map: no key occurs twice. */
    predicate Valid()
    {
      forall i, j :: 0 <= i < j < |entries| ==> entries[i].0 != entries[j].0
    }

    /** `getName` */
    function GetName(): (r: string)
      ensures r == name
    {
      name
    }

    /** `getIdentityMap` */
    function IdentityMap(): (m: map<string, string>)
      requires Valid()
      ensures forall k :: k in m <==> exists i :: 0 <= i < |entries| && entries[i].0 == k
      ensures forall i :: 0 <= i < |entries| ==> m[entries[i].0] == entries[i].1
    {
      map i | 0 <= i < |entries| :: entries[i].0 := entries[i].1
    }
  }

  /** The private two-argument constructor. */
  function NameAndAddr(name: string, remoteAddr: Option<string>): (r: Identity)
    ensures r.Valid() && r.GetName() == name
  {
    Identity(name, [(NAME, name)] + if remoteAddr.Some? then [(ADDR, ReplaceChar(remoteAddr.value, ':', '-'))] else [])
  }

  /** The identity map holds "name" always and "addr" only with an address, with every ':' of
      the address replaced by '-'. */
  lemma NameAndAddrMap(name: string, remoteAddr: Option<string>)
    ensures remoteAddr.None? ==> NameAndAddr(name, remoteAddr).IdentityMap() == map[NAME := name]
    ensures remoteAddr.Some? ==> (NameAndAddr(name, remoteAddr).IdentityMap() ==
      map[NAME := name, ADDR := ReplaceChar(remoteAddr.value, ':', '-')])
    ensures remoteAddr.Some? ==> ':' !in NameAndAddr(name, remoteAddr).IdentityMap()[ADDR]
  {
    var r := NameAndAddr(name, remoteAddr);
    assert NAME != ADDR by {
      assert NAME[0] == 'n' && ADDR[0] == 'a';
    }
    if remoteAddr.Some? {
      var addr := ReplaceChar(remoteAddr.value, ':', '-');
      assert r.entries == [(NAME, name), (ADDR, addr)];
      TwoEntriesMap(r, NAME, name, ADDR, addr);
    } else {
      assert r.entries == [(NAME, name)];
      OneEntryMap(r, NAME, name);
    }
  }

  lemma OneEntryMap(r: Identity, a: string, x: string)
    requires r.entries == [(a, x)]
    ensures r.Valid() && r.IdentityMap() == map[a := x]
  {
    var m := r.IdentityMap();
    assert r.entries[0].0 in m;
    forall k | k in m
      ensures k == a
    {
      var i :| 0 <= i < |r.entries| && r.entries[i].0 == k;
    }
  }

  lemma TwoEntriesMap(r: Identity, a: string, x: string, b: string, y: string)
    requires r.entries == [(a, x), (b, y)] && a != b
    ensures r.Valid() && r.IdentityMap() == map[a := x, b := y]
  {
    var m := r.IdentityMap();
    assert r.entries[0].0 in m && r.entries[1].0 in m;
    forall k | k in m
      ensures k == a || k == b
    {
      var i :| 0 <= i < |r.entries| && r.entries[i].0 == k;
    }
    assert m[r.entries[0].0] == x && m[r.entries[1].0] == y;
  }

  /** The public constructor passes no address, so its map holds "name" alone. */
  function NameAndRemoteAddr(name: string): (r: Identity)
    ensures r.Valid() && r.GetName() == name && r.IdentityMap() == map[NAME := name]
  {
    NameAndAddrMap(name, None);
    NameAndAddr(name, None)
  }

  /** An HTTP request: its headers (an absent header is null) and the peer address. */
  datatype Request = Request(headers: map<string, string>, remoteAddr: string)

  /** The headers consulted for the client address, in order of preference. */
  const IP_HEADERS: seq<string> := ["x-forwarded-for", "Proxy-Client-IP", "WL-Proxy-Client-IP", "HTTP_CLIENT_IP", "HTTP_X_FORWARDED_FOR"]

  /** A header value is used when it is present, non-empty and not "unknown". */
  predicate Usable(request: Request, header: string)
  {
    header in request.headers && request.headers[header] != "" && request.headers[header] != "unknown"
  }

  /** The value of the first usable header among `names`. */
  function FirstUsable(request: Request, names: seq<string>): (r: Option<string>)
    ensures r.None? <==> forall i :: 0 <= i < |names| ==> !Usable(request, names[i])
    ensures r.Some? ==> exists i :: (0 <= i < |names| && Usable(request, names[i]) && r.value == request.headers[names[i]] &&
      forall j :: 0 <= j < i ==> !Usable(request, names[j]))
  {
    if names == [] then None
    else if Usable(request, names[0]) then Some(request.headers[names[0]])
    else
      var r := FirstUsable(request, names[1..]);
      assert forall i :: 1 <= i < |names| ==> names[1..][i - 1] == names[i];
      if r.Some? then
        var k :| 0 <= k < |names[1..]| && Usable(request, names[1..][k]) && r.value == request.headers[names[1..][k]] &&
          forall j :: 0 <= j < k ==> !Usable(request, names[1..][j]);
        assert names[k + 1] == names[1..][k];
        r
      else r
  }

  /** `getIpAddress`: the first usable forwarding header, else the peer address. */
  function GetIpAddress(request: Request): (r: string)
    ensures (forall i :: 0 <= i < |IP_HEADERS| ==> !Usable(request, IP_HEADERS[i])) ==> r == request.remoteAddr
    ensures (exists i :: 0 <= i < |IP_HEADERS| && Usable(request, IP_HEADERS[i])) ==>
      exists i :: (0 <= i < |IP_HEADERS| && Usable(request, IP_HEADERS[i]) && r == request.headers[IP_HEADERS[i]] &&
        forall j :: 0 <= j < i ==> !Usable(request, IP_HEADERS[j]))
  {
    match FirstUsable(request, IP_HEADERS)
    case Some(ip) => ip
    case None => request.remoteAddr
  }

  /** What `RequestContextHolder.currentRequestAttributes()` finds bound to the thread: nothing,
      attributes of some other kind, or servlet attributes holding a request. */
  datatype RequestAttributes = NoRequest | NonServlet | Servlet(request: Request)

  /** The exception `currentRequestAttributes()` raises when no request is bound. */
  datatype Failure = IllegalState

  /** `getRemoteAddr`: fails when no request is bound; "unknown" for non-servlet attributes;
      otherwise the servlet request's IP address. */
  function GetRemoteAddr(attributes: RequestAttributes): (r: Result<string, Failure>)
    ensures r.Err? <==> attributes.NoRequest?
    ensures attributes.NonServlet? ==> r == Ok("unknown")
    ensures attributes.Servlet? ==> r == Ok(GetIpAddress(attributes.request))
  {
    match attributes
    case NoRequest => Err(IllegalState)
    case NonServlet => Ok("unknown")
    case Servlet(request) => Ok(GetIpAddress(request))
  }

  /** A usable "x-forwarded-for" header wins over everything else. */
  lemma ForwardedForWins(request: Request)
    requires Usable(request, "x-forwarded-for")
    ensures GetIpAddress(request) == request.headers["x-forwarded-for"]
  {
  }
}
