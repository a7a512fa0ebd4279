/** The token filter in front of every request: which requests it skips,
    how it reads the bearer token, and when it authenticates the request. Token
    parsing, signature checking and the user lookup are not part of this model:
    they come in as functions. */
module JwtFilter {
  import opened Entities

  /** The path prefixes served without a token. */
  const ExcludedPaths: seq<string> := [
    "/api/auth/login",
    "/api/auth/register",
    "/api/public",
    "/api/stats",
    "/api/statistics",
    "/api/admin/maintenance/test"
  ]

  /** `String.startsWith`. */
  predicate StartsWith(s: string, prefix: string) {
    |prefix| <= |s| && s[..|prefix|] == prefix
  }

  /** `prefixes.stream().anyMatch(path::startsWith)`. */
  function AnyPrefix(path: string, prefixes: seq<string>): (b: bool)
    ensures b <==> exists i :: 0 <= i < |prefixes| && StartsWith(path, prefixes[i])
  {
    if prefixes == [] then false
    else
      var rest := AnyPrefix(path, prefixes[1..]);
      assert rest <==> exists i :: 1 <= i < |prefixes| && StartsWith(path, prefixes[i]) by {
        assert forall i :: 1 <= i < |prefixes| ==> prefixes[i] == prefixes[1..][i - 1];
      }
      StartsWith(path, prefixes[0]) || rest
  }

  /** `shouldNotFilter`: every preflight request, and any other request whose
      path starts with an excluded prefix. */
  function ShouldNotFilter(verb: string, path: string): (skip: bool)
    ensures verb == "OPTIONS" ==> skip
    ensures verb != "OPTIONS" ==> (skip <==> exists p :: p in ExcludedPaths && StartsWith(path, p))
  {
    verb == "OPTIONS" || AnyPrefix(path, ExcludedPaths)
  }

  /** A path that differs from a prefix at some position does not start with it. */
  lemma DiffersAt(path: string, prefix: string, j: nat)
    requires j < |prefix| && j < |path| && path[j] != prefix[j]
    ensures !StartsWith(path, prefix)
  {
  }

  /** Matching is by raw prefix, not by path segment, and preflight requests
      pass whatever the path. */
  lemma SkippedRequests()
    ensures ShouldNotFilter("GET", "/api/admin/maintenance/test")
    ensures ShouldNotFilter("GET", "/api/publications")
    ensures ShouldNotFilter("OPTIONS", "/api/admin/users")
  {
    assert StartsWith("/api/admin/maintenance/test", ExcludedPaths[5]);
    assert StartsWith("/api/publications", ExcludedPaths[2]);
  }

  /** The other maintenance endpoints need a token. */
  lemma MaintenanceNeedsToken()
    ensures !ShouldNotFilter("POST", "/api/admin/maintenance/fix-constraints")
  {
    var fix := "/api/admin/maintenance/fix-constraints";
    assert fix[5] == 'a' && fix[6] == 'd' && fix[23] == 'f';
    var login, register, public, stats, statistics, test :=
      ExcludedPaths[0], ExcludedPaths[1], ExcludedPaths[2], ExcludedPaths[3], ExcludedPaths[4], ExcludedPaths[5];
    assert login[6] == 'u' && register[6] == 'u';
    assert public[5] == 'p' && stats[5] == 's' && statistics[5] == 's' && test[23] == 't';
    DiffersAt(fix, login, 6);
    DiffersAt(fix, register, 6);
    DiffersAt(fix, public, 5);
    DiffersAt(fix, stats, 5);
    DiffersAt(fix, statistics, 5);
    DiffersAt(fix, test, 23);
  }

  const BearerPrefix: string := "Bearer "

  /** The token of an `Authorization` header: what follows "Bearer ". */
  function BearerToken(header: Option<string>): (t: Option<string>)
    ensures t.Some? <==> header.Some? && StartsWith(header.value, BearerPrefix)
    ensures t.Some? ==> header.value == BearerPrefix + t.value
  {
    if header.Some? && StartsWith(header.value, BearerPrefix) then
      Some(header.value[|BearerPrefix|..])
    else
      None
  }

  lemma BearerRoundTrip(token: string)
    ensures BearerToken(Some(BearerPrefix + token)) == Some(token)
  {
    assert (BearerPrefix + token)[..|BearerPrefix|] == BearerPrefix;
  }

  /** The principal `loadUserByUsername` builds. */
  datatype UserDetails = UserDetails(username: string, authorities: seq<string>)

  /** The authentication the filter puts in the security context. */
  datatype Authentication = Authentication(principal: string, authorities: seq<string>)

  /** What the context holds after the filter: a new authentication only if a
      bearer token was present, a username came out of it, nothing was
      authenticated yet, the user loaded and the token validated. */
  function Authenticated(
    current: Option<Authentication>,
    header: Option<string>,
    extractUsername: string -> Option<string>,
    loadUser: string -> Option<UserDetails>,
    validateToken: string -> bool): (a: Option<Authentication>)
    ensures a != current ==>
              && current.None?
              && BearerToken(header).Some?
              && extractUsername(BearerToken(header).value).Some?
              && loadUser(extractUsername(BearerToken(header).value).value).Some?
              && validateToken(BearerToken(header).value)
    ensures a != current ==>
              var d := loadUser(extractUsername(BearerToken(header).value).value).value;
              a == Some(Authentication(d.username, d.authorities))
    ensures current.Some? ==> a == current
    ensures && current.None?
            && BearerToken(header).Some?
            && extractUsername(BearerToken(header).value).Some?
            && loadUser(extractUsername(BearerToken(header).value).value).Some?
            && validateToken(BearerToken(header).value) ==>
              var d := loadUser(extractUsername(BearerToken(header).value).value).value;
              a == Some(Authentication(d.username, d.authorities))
  {
    match BearerToken(header)
    case None => current
    case Some(jwt) =>
      match extractUsername(jwt)
      case None => current
      case Some(name) =>
        if current.Some? then current
        else
          match loadUser(name)
          case None => current
          case Some(d) => if validateToken(jwt) then Some(Authentication(d.username, d.authorities)) else current
  }

  /** `SecurityContextHolder.getContext()`. */
  class SecurityContext {
    var authentication: Option<Authentication>

    constructor ()
      ensures authentication == None
    {
      authentication := None;
    }
  }

  /** `doFilterInternal`: an extraction or lookup that throws is a `None` of
      the corresponding function; the chain always continues. */
  method DoFilterInternal(
    context: SecurityContext,
    header: Option<string>,
    extractUsername: string -> Option<string>,
    loadUser: string -> Option<UserDetails>,
    validateToken: string -> bool) returns (chained: bool)
    modifies context
    ensures chained
    ensures context.authentication ==
              Authenticated(old(context.authentication), header, extractUsername, loadUser, validateToken)
  {
    var username: Option<string> := None;
    var jwt: string := "";
    if header.Some? && StartsWith(header.value, BearerPrefix) {
      jwt := header.value[|BearerPrefix|..];
      username := extractUsername(jwt);
    }
    if username.Some? && context.authentication.None? {
      var details := loadUser(username.value);
      if details.Some? && validateToken(jwt) {
        context.authentication := Some(Authentication(details.value.username, details.value.authorities));
      }
    }
    chained := true;
  }
}
