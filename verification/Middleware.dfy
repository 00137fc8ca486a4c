/** The request-level decisions of `JWTAuthenticationMiddleware` (middleware.py): which paths
    skip authentication, where the token is read from, and which response each failure
    becomes. The backend's `authenticate` is a parameter, so any backend can be plugged in. */
module Middleware {
  import opened Wrappers
  import opened Errors
  import Text
  import opened Backend
  import opened AuthToken
  import opened StorageType
  import Storage
  import RepositoryFactory

  /** `any(url in path for url in exclude_urls)`, scanning the list in order: true exactly
      when some excluded url is a substring of the path. */
  function Excluded(path: string, excludeUrls: seq<string>): (r: bool)
    ensures r <==> exists i :: 0 <= i < |excludeUrls| && Text.Contains(path, excludeUrls[i])
    decreases |excludeUrls|
  {
    if |excludeUrls| == 0 then false
    else if Text.Contains(path, excludeUrls[0]) then true
    else
      var rest := Excluded(path, excludeUrls[1..]);
      assert forall i :: 1 <= i < |excludeUrls| ==> excludeUrls[i] == excludeUrls[1..][i - 1];
      rest
  }

  /** `exclude_urls or []`: no list and an empty list both exclude nothing. */
  function ExcludeList(excludeUrls: Option<seq<string>>): (r: seq<string>)
    ensures excludeUrls.None? ==> r == []
    ensures excludeUrls.Some? ==> r == excludeUrls.value
  {
    if excludeUrls.Some? then excludeUrls.value else []
  }

  /** With the default list no path is excluded; an empty string in the list excludes every path. */
  lemma ExclusionExtremes(path: string, excludeUrls: seq<string>)
    ensures !Excluded(path, ExcludeList(None))
    ensures "" in excludeUrls ==> Excluded(path, excludeUrls)
  {
    if "" in excludeUrls {
      var i :| 0 <= i < |excludeUrls| && excludeUrls[i] == "";
      Text.EmptyOccursEverywhere(path);
    }
  }

  /** The index of the first space, if any. */
  function FirstSpace(s: string): (r: Option<nat>)
    ensures r.None? <==> ' ' !in s
    ensures r.Some? ==> r.value < |s| && s[r.value] == ' ' && ' ' !in s[..r.value]
    decreases |s|
  {
    if |s| == 0 then None
    else if s[0] == ' ' then Some(0)
    else
      var rest := FirstSpace(s[1..]);
      if rest.Some? then
        assert s[..rest.value + 1] == [s[0]] + s[1..][..rest.value];
        Some(rest.value + 1)
      else
        assert s == [s[0]] + s[1..];
        None
  }

  /** `get_authorization_scheme_param`: the text before the first space and the text after it
      (`str.partition(" ")`); with no space, the whole value and an empty parameter. */
  function SchemeParam(value: string): (r: (string, string))
    ensures ' ' !in r.0
    ensures ' ' in value ==> r.0 + " " + r.1 == value
    ensures ' ' !in value ==> r == (value, "")
  {
    var i := FirstSpace(value);
    if i.None? then (value, "") else
      assert value == value[..i.value] + " " + value[i.value + 1..];
      (value[..i.value], value[i.value + 1..])
  }

  /** A scheme word followed by a space and a parameter splits back into the two. */
  lemma SchemeParamSplits(scheme: string, param: string)
    requires ' ' !in scheme
    ensures SchemeParam(scheme + " " + param) == (scheme, param)
  {
    var value := scheme + " " + param;
    assert value[|scheme|] == ' ';
    var r := SchemeParam(value);
    assert r.0 == value[..|scheme|] == scheme;
    assert r.1 == value[|scheme| + 1..] == param;
  }

  const MissingHeader: string := "Authorization header is missing."
  const InvalidScheme: string := "Invalid authorization header, expected value in format 'Bearer <token>'."

  /** Reading one `Authorization` value: empty is a 401; a scheme other than `bearer`, in any
      letter case, is a 400; otherwise the parameter after the scheme is the token. */
  function ParseAuthorization(value: string): (r: Result<string, Error>)
    ensures |value| == 0 <==> r == Err(Http(401, MissingHeader))
    ensures r.Err? ==> r.error == Http(401, MissingHeader) || r.error == Http(400, InvalidScheme)
    ensures r.Ok? ==> Text.Lower(SchemeParam(value).0) == "bearer" && r.value == SchemeParam(value).1
  {
    if |value| == 0 then Err(Http(401, MissingHeader))
    else
      var (scheme, token) := SchemeParam(value);
      if Text.Lower(scheme) != "bearer" then Err(Http(400, InvalidScheme)) else Ok(token)
  }

  /** `extract_token_from_request`: the `Authorization` header unless it is absent or empty,
      else the `Authorization` cookie, read as above. */
  function ExtractToken(header: Option<string>, cookie: Option<string>): (r: Result<string, Error>)
    ensures header.Some? && |header.value| > 0 ==> r == ParseAuthorization(header.value)
    ensures !(header.Some? && |header.value| > 0) ==> r == ParseAuthorization(if cookie.Some? then cookie.value else "")
    ensures (header.None? || header == Some("")) && (cookie.None? || cookie == Some("")) ==>
              r == Err(Http(401, MissingHeader))
  {
    var value := if header.Some? && |header.value| > 0 then header.value
                 else if cookie.Some? then cookie.value else "";
    ParseAuthorization(value)
  }

  /** A value `<scheme> <token>` whose scheme reads `bearer` in any letter case gives the token
      exactly, spaces inside it included; any other scheme word is refused. */
  lemma BearerValueGivesToken(scheme: string, token: string, cookie: Option<string>)
    requires ' ' !in scheme
    ensures Text.Lower(scheme) == "bearer" ==> ExtractToken(Some(scheme + " " + token), cookie) == Ok(token)
    ensures Text.Lower(scheme) != "bearer" ==> ExtractToken(Some(scheme + " " + token), cookie) == Err(Http(400, InvalidScheme))
  {
    SchemeParamSplits(scheme, token);
  }

  /** The cookie is read only when the header is absent or empty. */
  lemma CookieIsFallback(value: string, header: Option<string>)
    requires header.None? || header == Some("")
    ensures ExtractToken(header, Some(value)) == ExtractToken(Some(value), None)
  {
  }

  const MissingClaimDetail: string := "Missing required claim."
  const CredentialsDetail: string := "Could not validate credentials."
  const InternalErrorDetail: string := "Internal Server Error"

  /** The `except` clauses of `dispatch` with `_handle_authentication_exception`: a missing
      claim is 400 although it is also a signing-library error, which is caught next as 401;
      an `HTTPException` keeps its own status and detail; anything else is 500. */
  function ErrorResponse(e: Error): (r: (int, string))
    ensures e.Jwt? && e.jwt.MissingRequiredClaim? ==> r == (400, MissingClaimDetail)
    ensures e.Jwt? && !e.jwt.MissingRequiredClaim? ==> r == (401, CredentialsDetail)
    ensures e.Http? ==> r == (e.status, e.detail)
    ensures !e.Jwt? && !e.Http? ==> r == (500, InternalErrorDetail)
  {
    match e
    case Jwt(MissingRequiredClaim(_)) => (400, MissingClaimDetail)
    case Jwt(_) => (401, CredentialsDetail)
    case Http(status, detail) => (status, detail)
    case _ => (500, InternalErrorDetail)
  }

  /** What `dispatch` does with a request: pass it on untouched, pass it on with a user
      attached (possibly none), or answer with an error status and detail. */
  datatype Outcome<U> = Skip | Proceed(user: Option<U>) | Reject(status: int, detail: string)

  /** `dispatch` for a request with `path`, an optional `Authorization` header and cookie. */
  function Dispatch<U>(excludeUrls: seq<string>, path: string, header: Option<string>, cookie: Option<string>,
                       authenticate: string -> Result<Option<U>, Error>): (r: Outcome<U>)
    ensures Excluded(path, excludeUrls) <==> r.Skip?
    ensures r.Proceed? ==> ExtractToken(header, cookie).Ok? && authenticate(ExtractToken(header, cookie).value) == Ok(r.user)
    ensures !Excluded(path, excludeUrls) && ExtractToken(header, cookie).Err? ==>
              r == Reject(ErrorResponse(ExtractToken(header, cookie).error).0, ErrorResponse(ExtractToken(header, cookie).error).1)
    ensures r.Reject? && ExtractToken(header, cookie).Ok? ==>
              var u := authenticate(ExtractToken(header, cookie).value);
              u.Err? && (r.status, r.detail) == ErrorResponse(u.error)
  {
    if Excluded(path, excludeUrls) then Skip
    else
      var token := ExtractToken(header, cookie);
      if token.Err? then Reject(ErrorResponse(token.error).0, ErrorResponse(token.error).1)
      else
        var user := authenticate(token.value);
        if user.Err? then Reject(ErrorResponse(user.error).0, ErrorResponse(user.error).1)
        else Proceed(user.value)
  }

  /** A request with no credentials on a protected path is a 401 without calling `authenticate`. */
  lemma NoCredentialsIs401<U>(excludeUrls: seq<string>, path: string, authenticate: string -> Result<Option<U>, Error>)
    requires !Excluded(path, excludeUrls)
    ensures Dispatch(excludeUrls, path, None, None, authenticate) == Reject(401, MissingHeader)
  {
  }

  /** Whatever `authenticate` returns for a bearer token decides the request: a user, even
      none, proceeds; a missing claim is 400 and every other signing-library error is 401. */
  lemma AuthenticationDecides<U>(excludeUrls: seq<string>, path: string, token: string, cookie: Option<string>,
                                 authenticate: string -> Result<Option<U>, Error>)
    requires !Excluded(path, excludeUrls)
    ensures ExtractToken(Some("Bearer " + token), cookie) == Ok(token)
    ensures var r := Dispatch(excludeUrls, path, Some("Bearer " + token), cookie, authenticate);
            && (authenticate(token).Ok? ==> r == Proceed(authenticate(token).value))
            && (authenticate(token).Err? && authenticate(token).error.Jwt? ==>
                  r.Reject? && r.status == (if authenticate(token).error.jwt.MissingRequiredClaim? then 400 else 401))
  {
    assert Text.Lower("Bearer") == "bearer";
    assert "Bearer" + " " + token == "Bearer " + token;
    BearerValueGivesToken("Bearer", token, cookie);
    var extracted := ExtractToken(Some("Bearer " + token), cookie);
    assert extracted == Ok(token);
    var r := Dispatch(excludeUrls, path, Some("Bearer " + token), cookie, authenticate);
    if authenticate(token).Err? {
      assert (r.status, r.detail) == ErrorResponse(authenticate(token).error);
    }
  }

  // ---------------------------------------------------------------------------------
  // The backend a middleware gets by default

  /** Importing the package as written: `JWTAuthenticationMiddleware.__init__` has the default
      argument `backend=JWTAuthBackend()`, which Python evaluates once, when the module is
      imported, so importing constructs the backend with default settings. */
  function ImportPackageAsWritten(w: World): (r: World)
    requires WellFormed(w)
    ensures WellFormed(r)
    ensures w.slot.Ready? ==> r == w
  {
    Construct(w, None, None).state
  }

  /** As written, an application that imports the package and then configures its backend
      gets the default-configured one: its secret is "default_secret" whatever it asked for. */
  lemma ConfiguredSecretIsIgnored(config: AuthConfig, storage: Option<Storage.StorageConfig>)
    ensures var w := ImportPackageAsWritten(FreshWorld);
            var r := Construct(w, Some(config), storage);
            r.out.Ok? && r.out.value.codec.secret == DefaultSecret && r.out.value.config == DefaultAuthConfig
  {
  }

  /** The middleware's backend with the default resolved when the middleware is created
      rather than at import: the backend passed in, else the backend singleton as it is then. */
  function MiddlewareBackend(w: World, backend: Option<Backend>): (r: Step<World, Result<Backend, Error>>)
    requires WellFormed(w)
    ensures backend.Some? ==> r == Step(w, Ok(backend.value))
    ensures backend.None? && w.slot.Ready? ==> r == Step(w, Ok(w.slot.backend))
  {
    if backend.Some? then Step(w, Ok(backend.value)) else Construct(w, None, None)
  }

  /** With the default resolved late, an application that configures its backend at start-up
      and adds the middleware without naming a backend gets its own settings. */
  lemma ConfiguredSecretIsUsed(config: AuthConfig, storage: Option<Storage.StorageConfig>)
    requires storage.None? || Storage.KindOf(storage.value) == Memory
             || (storage.value.RedisSettings? && RepositoryFactory.HasRedisScheme(Storage.GetUrl(storage.value.redis)))
    ensures var app := Construct(FreshWorld, Some(config), storage);
            && app.out.Ok?
            && var m := MiddlewareBackend(app.state, None);
               m.out == app.out && m.out.value.codec.secret == config.secret && m.out.value.config == config
  {
  }
}
