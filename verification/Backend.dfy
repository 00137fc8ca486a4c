/** The token lifecycle manager `JWTAuthBackend` (backend.py): it issues tokens, records
    each token's payload in the in-memory repository, and authenticates a token by
    decoding it and matching its claims against that record. Repository calls that fail
    (a networked store, or one replaced in a test) are the parameter `fault`. */
module Backend {
  import opened Wrappers
  import opened Errors
  import opened Claims
  import opened TimeHelpers
  import opened Storage
  import opened AuthToken
  import opened JwtToken
  import Text
  import Factory = RepositoryFactory
  import Repo = LocalRepository

  /** The cache: each issued token mapped to the payload it was issued for. */
  type TokenStore = Repo.Store<Token, ClaimMap>

  /** An initialised backend: its settings, the repository it was given and its codec. */
  datatype Backend = Backend(config: AuthConfig, storage: StorageConfig, cache: Factory.Repository, codec: Handler)

  /** The class-level `_instance` slot: never constructed, allocated but with `__init__`
      aborted part-way (so the next construction initialises it again), or initialised. */
  datatype Slot = Unset | Allocated | Ready(backend: Backend)

  /** The process-wide state construction touches: the backend slot and the repositories' registry. */
  datatype World = World(slot: Slot, registry: Factory.Registry)

  const FreshWorld: World := World(Unset, map[])

  predicate WellFormed(w: World) {
    Factory.WellFormed(w.registry)
  }

  /** `JWTAuthBackend(authentication_config, storage_config)`: an initialised instance is
      returned as it is and the arguments are ignored; otherwise the settings (or their
      defaults) are recorded, the repository is created and the codec is built from the
      settings. A failing repository leaves the instance allocated but uninitialised. */
  function Construct(w: World, auth: Option<AuthConfig>, storage: Option<StorageConfig>): (r: Step<World, Result<Backend, Error>>)
    requires WellFormed(w)
    ensures WellFormed(r.state)
    ensures w.slot.Ready? ==> r == Step(w, Ok(w.slot.backend))
    ensures r.out.Ok? <==> r.state.slot.Ready?
    ensures r.out.Ok? ==> r.state.slot.backend == r.out.value
    ensures !w.slot.Ready? && r.out.Ok? ==>
              && r.out.value.config == (if auth.Some? then auth.value else DefaultAuthConfig)
              && r.out.value.storage == (if storage.Some? then storage.value else DefaultStorageConfig)
              && r.out.value.codec == Handler(r.out.value.config.secret, r.out.value.config.algorithm)
              && r.out.value.cache.cls == Factory.ClassFor(KindOf(r.out.value.storage))
    ensures !w.slot.Ready? && r.out.Err? ==> r.state.slot == Allocated
  {
    if w.slot.Ready? then Step(w, Ok(w.slot.backend))
    else
      var config := if auth.Some? then auth.value else DefaultAuthConfig;
      var storageConfig := if storage.Some? then storage.value else DefaultStorageConfig;
      var created := Factory.Create(w.registry, storageConfig);
      if created.out.Err? then Step(World(Allocated, created.state), Err(created.out.error))
      else
        var b := Backend(config, storageConfig, created.out.value, NewHandler(config.secret, Some(config.algorithm)));
        Step(World(Ready(b), created.state), Ok(b))
  }

  /** `JWTAuthBackend.get_instance()`: whether an object exists, initialised or not. */
  function HasInstance(w: World): (r: bool)
    ensures r <==> !w.slot.Unset?
  {
    w.slot != Unset
  }

  /** Once a backend is initialised, every later construction returns it and changes nothing. */
  lemma LaterConstructionsShareTheBackend(w: World, auth: Option<AuthConfig>, storage: Option<StorageConfig>,
                                          auth2: Option<AuthConfig>, storage2: Option<StorageConfig>)
    requires WellFormed(w)
    requires Construct(w, auth, storage).out.Ok?
    ensures var first := Construct(w, auth, storage);
            Construct(first.state, auth2, storage2) == Step(first.state, first.out)
  {
  }

  // ---------------------------------------------------------------------------------
  // Expiration resolution

  /** The declared settings fields, in declaration order, with their values as expirations:
      the two strings are objects of type `str`, truthy when non-empty. */
  function ConfigFields(c: AuthConfig): seq<(string, Duration)> {
    [ ("secret", Other("str", |c.secret| > 0)),
      ("algorithm", Other("str", |c.algorithm| > 0)),
      ("expiration_seconds", Seconds(c.expirationSeconds)) ]
  }

  const ExpirationCandidates: seq<string> := ["expire", "expiration", "exp"]

  /** Some candidate occurs in the field name. */
  predicate IsCandidate(name: string) {
    exists i :: 0 <= i < |ExpirationCandidates| && Text.Contains(name, ExpirationCandidates[i])
  }

  /** The index of the first field whose name is a candidate. */
  function FirstCandidate(fields: seq<(string, Duration)>): (r: Option<nat>)
    ensures r.None? <==> forall i :: 0 <= i < |fields| ==> !IsCandidate(fields[i].0)
    ensures r.Some? ==> r.value < |fields| && IsCandidate(fields[r.value].0)
                        && forall j :: 0 <= j < r.value ==> !IsCandidate(fields[j].0)
    decreases |fields|
  {
    if |fields| == 0 then None
    else if IsCandidate(fields[0].0) then Some(0)
    else
      var rest := FirstCandidate(fields[1..]);
      assert forall i :: 1 <= i < |fields| ==> fields[i] == fields[1..][i - 1];
      if rest.Some? then Some(rest.value + 1) else None
  }

  /** The expiration `create_token` uses: the one given, else the first candidate field's value. */
  function ResolveExpiry(c: AuthConfig, given: Duration): (r: Duration)
    ensures !given.NoDuration? ==> r == given
  {
    if !given.NoDuration? then given
    else
      var i := FirstCandidate(ConfigFields(c));
      if i.Some? then ConfigFields(c)[i.value].1 else NoDuration
  }

  /** Every candidate has an 'x' as its second character, so a name without one is no candidate. */
  lemma NoXNoCandidate(name: string)
    requires 'x' !in name
    ensures !IsCandidate(name)
  {
    forall i | 0 <= i < |ExpirationCandidates|
      ensures !Text.Contains(name, ExpirationCandidates[i])
    {
      assert ExpirationCandidates[i][1] == 'x';
      Text.ContainedCharsOccur(name, ExpirationCandidates[i], 1);
    }
  }

  /** Of the settings fields only `expiration_seconds` names an expiration, so a token issued
      without an explicit lifetime gets the configured one. */
  lemma DefaultLifetimeIsConfigured(c: AuthConfig)
    ensures ResolveExpiry(c, NoDuration) == Seconds(c.expirationSeconds)
  {
    var fields := ConfigFields(c);
    assert !IsCandidate(fields[0].0) by { NoXNoCandidate("secret"); }
    assert !IsCandidate(fields[1].0) by { NoXNoCandidate("algorithm"); }
    assert IsCandidate(fields[2].0) by { ExpirationSecondsIsCandidate(); }
    ThirdFieldIsFirstCandidate(fields);
  }

  lemma ThirdFieldIsFirstCandidate(fields: seq<(string, Duration)>)
    requires |fields| == 3 && !IsCandidate(fields[0].0) && !IsCandidate(fields[1].0) && IsCandidate(fields[2].0)
    ensures FirstCandidate(fields) == Some(2)
  {
    assert fields[1..][1..] == fields[2..];
  }

  lemma ExpirationSecondsIsCandidate()
    ensures IsCandidate("expiration_seconds")
  {
    assert ExpirationCandidates[2] == "exp";
    assert "exp" <= "expiration_seconds";
    assert Text.Contains("expiration_seconds", ExpirationCandidates[2]);
  }

  // ---------------------------------------------------------------------------------
  // Issuing tokens

  /** The token's `exp` claim is the instant `at`, or one second before it. */
  predicate ExpiresNear(claims: ClaimMap, at: int) {
    Get(claims, "exp") == Some(VInt(at)) || Get(claims, "exp") == Some(VInt(at - 1))
  }

  /** Every expiry the store records for a token is the instant in that token's own `exp`, or
      one second after it: the codec rounds a fractional lifetime down, the store rounds it
      toward zero, and the two differ for a negative lifetime with a fractional part. */
  predicate Consistent(store: TokenStore) {
    forall t :: t in store.expirations ==> t.Signed? && ExpiresNear(t.claims, store.expirations[t])
  }

  const StoreFailure: string := "Failed to store token in cache"

  /** The lifetime as `encode` can stamp it: a `timedelta` becomes its `total_seconds()`, and
      every other value is passed on unchanged. */
  function EncodableLifetime(e: Duration): (r: Duration)
    ensures !r.Timedelta?
    ensures !e.Timedelta? ==> r == e
    ensures Truthy(r) == Truthy(e)
    ensures CastToSeconds(r) == CastToSeconds(e)
  {
    if e.Timedelta? then
      TimedeltaAgreesWithFloat(e.micros);
      FloatSeconds(e.micros as real / MicrosPerSecond as real)
    else e
  }

  /** `s` is the lifetime rounded down to whole seconds. */
  ghost predicate FloorsTo(e: Duration, s: int) {
    match e
    case Seconds(n) => s == n
    case FloatSeconds(x) => s as real <= x < s as real + 1.0
    case Timedelta(us) => s * MicrosPerSecond <= us < s * MicrosPerSecond + MicrosPerSecond
    case _ => false
  }

  /** `create_token(payload, expiration_seconds)` with the lifetime made stampable: resolve
      the lifetime, sign with a `timedelta` given as its seconds, then record token -> payload
      under the lifetime as resolved. A failing store means no token is returned. */
  function CreateToken(b: Backend, store: TokenStore, payload: ClaimMap, given: Duration, fault: Option<Error>, now: int)
    : (r: Step<TokenStore, Result<Token, Error>>)
    ensures Consistent(store) ==> Consistent(r.state)
    ensures Repo.Valid(store) ==> Repo.Valid(r.state)
    ensures var e := ResolveExpiry(b.config, given);
            var encoded := Encode(b.codec, payload, EncodableLifetime(e), [], now);
            && (r.out.Ok? <==> encoded.Ok? && fault.None? && CastToSeconds(e).Ok?)
            && (encoded.Err? ==> r == Step(store, Err(encoded.error)))
            && (encoded.Ok? && fault.Some? ==> r == Step(store, Err(Wrap(StoreFailure, fault.value))))
            && (encoded.Ok? && fault.None? && CastToSeconds(e).Err? ==>
                  r.out == Err(Wrap(StoreFailure, CastToSeconds(e).error))
                  && r.state.values == store.values[encoded.value := payload])
    ensures r.out.Ok? ==> r.out.value.Signed? && r.out.value.secret == b.codec.secret && r.out.value.alg == b.codec.algorithm
    ensures r.out.Ok? ==> r.out.value in r.state.values && r.state.values[r.out.value] == payload
    ensures r.out.Ok? ==> forall k :: k != "exp" ==> Get(r.out.value.claims, k) == Get(payload, k)
    ensures var e := ResolveExpiry(b.config, given);
            r.out.Ok? && Truthy(e) ==>
              Get(r.out.value.claims, "exp").Some? && Get(r.out.value.claims, "exp").value.VInt?
              && FloorsTo(e, Get(r.out.value.claims, "exp").value.i - now)
    ensures var e := ResolveExpiry(b.config, given);
            r.out.Ok? && !Truthy(e) ==> Get(r.out.value.claims, "exp") == Get(payload, "exp")
    ensures var seconds := CastToSeconds(ResolveExpiry(b.config, given));
            r.out.Ok? && seconds.value.Some? && seconds.value.value != 0 ==>
              r.out.value in r.state.expirations && r.state.expirations[r.out.value] == now + seconds.value.value
    ensures var seconds := CastToSeconds(ResolveExpiry(b.config, given));
            r.out.Ok? && (seconds.value.None? || seconds.value.value == 0) ==> r.state.expirations == store.expirations
    ensures fault.Some? ==> r.out.Err? && r.state == store
  {
    var e := ResolveExpiry(b.config, given);
    var token := Encode(b.codec, payload, EncodableLifetime(e), [], now);
    if token.Err? then Step(store, Err(token.error))
    else if fault.Some? then Step(store, Err(Wrap(StoreFailure, fault.value)))
    else
      var written := Repo.Set(store, token.value, payload, e, now);
      IssuedTokenFacts(b, store, payload, e, now);
      if written.out.Err? then Step(written.state, Err(Wrap(StoreFailure, written.out.error)))
      else Step(written.state, Ok(token.value))
  }

  /** Rounding down and rounding toward zero disagree by at most one second, and only below zero. */
  lemma FloorAndTruncation(x: real)
    ensures TruncReal(x) == x.Floor || TruncReal(x) == x.Floor + 1
  {
  }

  /** Whole seconds of a `timedelta`, read off its float seconds, bound its microseconds. */
  lemma FloatFloorOfMicros(us: int, s: int)
    requires s as real <= us as real / MicrosPerSecond as real < s as real + 1.0
    ensures s * MicrosPerSecond <= us < s * MicrosPerSecond + MicrosPerSecond
  {
    var q := us as real / 1000000.0;
    assert us as real == q * 1000000.0;
    assert (s * 1000000) as real <= us as real < (s * 1000000 + 1000000) as real;
  }

  /** What `encode` stamps for a lifetime that survives it: the rounded-down seconds, within a
      second of what the store will record. */
  lemma StampOfEncodable(e: Duration, now: int)
    requires Truthy(e) && ExpiryStamp(EncodableLifetime(e), now).Ok?
    ensures var stamp := ExpiryStamp(EncodableLifetime(e), now);
            && stamp.value.Some? && FloorsTo(e, stamp.value.value - now)
            && CastToSeconds(e).Ok? && CastToSeconds(e).value.Some?
            && (CastToSeconds(e).value.value == stamp.value.value - now
                || CastToSeconds(e).value.value == stamp.value.value - now + 1)
  {
    var d := EncodableLifetime(e);
    var stamp := ExpiryStamp(d, now);
    if d.FloatSeconds? {
      FloorAndTruncation(d.x);
      assert stamp.value.value - now == d.x.Floor;
      if e.Timedelta? {
        FloatFloorOfMicros(e.micros, stamp.value.value - now);
      }
    }
  }

  /** The `exp` of the token `encode` returns for the resolved lifetime. */
  lemma IssuedTokenStamp(b: Backend, payload: ClaimMap, e: Duration, now: int)
    requires Encode(b.codec, payload, EncodableLifetime(e), [], now).Ok?
    ensures var token := Encode(b.codec, payload, EncodableLifetime(e), [], now).value;
            && (Truthy(e) ==> Get(token.claims, "exp").Some? && Get(token.claims, "exp").value.VInt?
                              && FloorsTo(e, Get(token.claims, "exp").value.i - now))
            && (!Truthy(e) ==> Get(token.claims, "exp") == Get(payload, "exp"))
            && (CastToSeconds(e).Ok? && CastToSeconds(e).value.Some? && CastToSeconds(e).value.value != 0 ==>
                  ExpiresNear(token.claims, now + CastToSeconds(e).value.value))
  {
    var d := EncodableLifetime(e);
    var token := Encode(b.codec, payload, d, [], now).value;
    if Truthy(e) {
      StampOfEncodable(e, now);
      assert Get(token.claims, "exp") == Some(VInt(ExpiryStamp(d, now).value.value));
    }
  }

  /** What issuing records, given the token `encode` returned for the resolved lifetime. */
  lemma IssuedTokenFacts(b: Backend, store: TokenStore, payload: ClaimMap, e: Duration, now: int)
    requires Encode(b.codec, payload, EncodableLifetime(e), [], now).Ok?
    ensures var token := Encode(b.codec, payload, EncodableLifetime(e), [], now).value;
            var w := Repo.Set(store, token, payload, e, now).state;
            && (Consistent(store) ==> Consistent(w))
            && (Repo.Valid(store) ==> Repo.Valid(w))
            && (Truthy(e) ==> Get(token.claims, "exp").Some? && Get(token.claims, "exp").value.VInt?
                              && FloorsTo(e, Get(token.claims, "exp").value.i - now))
            && (!Truthy(e) ==> Get(token.claims, "exp") == Get(payload, "exp"))
  {
    IssuedTokenStamp(b, payload, e, now);
    var token := Encode(b.codec, payload, EncodableLifetime(e), [], now).value;
    var w := Repo.Set(store, token, payload, e, now).state;
    var seconds := CastToSeconds(e);
    if seconds.Ok? && seconds.value.Some? && seconds.value.value != 0 {
      if Consistent(store) {
        RecordKeepsConsistent(store, w, token, now + seconds.value.value);
      }
    } else {
      assert w.expirations == store.expirations;
    }
  }

  /** Recording a signed token's expiry near its `exp` keeps the store consistent. */
  lemma RecordKeepsConsistent(store: TokenStore, w: TokenStore, token: Token, at: int)
    requires Consistent(store) && token.Signed? && ExpiresNear(token.claims, at)
    requires w.expirations == store.expirations[token := at]
    ensures Consistent(w)
  {
  }

  /** `create_token` as written: the resolved lifetime goes to `encode` as it is, so a
      `timedelta`, which the signature admits, is refused as a payload type error. */
  function CreateTokenAsWritten(b: Backend, store: TokenStore, payload: ClaimMap, given: Duration, fault: Option<Error>, now: int)
    : (r: Step<TokenStore, Result<Token, Error>>)
    ensures Truthy(ResolveExpiry(b.config, given)) && ResolveExpiry(b.config, given).Timedelta? ==>
              r == Step(store, Err(TypeErr("Invalid type in payload: " + TimedeltaNotSeconds)))
    ensures r.out.Ok? ==> r.out.value in r.state.values && r.state.values[r.out.value] == payload
  {
    var e := ResolveExpiry(b.config, given);
    var token := Encode(b.codec, payload, e, [], now);
    if token.Err? then Step(store, Err(token.error))
    else if fault.Some? then Step(store, Err(Wrap(StoreFailure, fault.value)))
    else
      var written := Repo.Set(store, token.value, payload, e, now);
      if written.out.Err? then Step(written.state, Err(Wrap(StoreFailure, written.out.error)))
      else Step(written.state, Ok(token.value))
  }

  /** The two agree on every lifetime but a `timedelta`. */
  lemma AsWrittenAgreesExceptOnTimedelta(b: Backend, store: TokenStore, payload: ClaimMap, given: Duration, fault: Option<Error>, now: int)
    requires !ResolveExpiry(b.config, given).Timedelta?
    ensures CreateTokenAsWritten(b, store, payload, given, fault, now) == CreateToken(b, store, payload, given, fault, now)
  {
  }

  /** A one-minute `timedelta` lifetime: as written no token can be issued, while the
      corrected version issues one that expires a minute later, store entry included. */
  lemma TimedeltaLifetime(b: Backend, store: TokenStore, payload: ClaimMap, now: int)
    requires AllSerializable(payload) && b.codec.algorithm in SupportedAlgorithms && !HasKey(payload, "exp")
    ensures CreateTokenAsWritten(b, store, payload, Timedelta(60 * MicrosPerSecond), None, now).out.Err?
    ensures var r := CreateToken(b, store, payload, Timedelta(60 * MicrosPerSecond), None, now);
            r.out.Ok? && Get(r.out.value.claims, "exp") == Some(VInt(now + 60))
            && r.state.expirations[r.out.value] == now + 60
  {
    var e := Timedelta(60 * MicrosPerSecond);
    assert ResolveExpiry(b.config, e) == e;
    assert EncodableLifetime(e) == FloatSeconds(60.0);
    assert TruncDiv(60 * MicrosPerSecond, MicrosPerSecond) == 60;
    assert CastToSeconds(e) == Ok(Some(60));
    assert ExpiryStamp(FloatSeconds(60.0), now) == Ok(Some(now + 60));
    EncodeSucceeds(b.codec, payload, FloatSeconds(60.0), now);
  }

  /** A lifetime under a second still expires, as the code as written lets it: the token is
      stamped `exp = now` and is refused from then on, though the store records no expiry. The
      payload's `nbf` and `iat` must have been reached and its `iss` must be a string. */
  lemma SubSecondLifetimeExpires(b: Backend, store: TokenStore, payload: ClaimMap, given: Duration, now: int, later: int,
                                 after: TokenStore, fault: Option<Error>)
    requires given.FloatSeconds? || given.Timedelta?
    requires given.FloatSeconds? ==> 0.0 < given.x < 1.0
    requires given.Timedelta? ==> 0 < given.micros < MicrosPerSecond
    requires AllSerializable(payload) && b.codec.algorithm in SupportedAlgorithms
    requires IssuedAtAdmits(payload, later) && NotBeforeAdmits(payload, later) && IssuerIsString(payload)
    requires later >= now
    ensures var created := CreateToken(b, store, payload, given, None, now);
            && created.out.Ok?
            && Get(created.out.value.claims, "exp") == Some(VInt(now))
            && created.state.expirations == store.expirations
            && Authenticate(b, after, created.out.value, fault, later) == Step(after, Err(Jwt(ExpiredSignature)))
  {
    SubSecondStamp(b.codec, payload, given, now, later);
  }

  /** What `encode` makes of a lifetime under a second: `exp` is the issuing instant itself. */
  lemma SubSecondStamp(h: Handler, payload: ClaimMap, given: Duration, now: int, later: int)
    requires given.FloatSeconds? || given.Timedelta?
    requires given.FloatSeconds? ==> 0.0 < given.x < 1.0
    requires given.Timedelta? ==> 0 < given.micros < MicrosPerSecond
    requires AllSerializable(payload) && h.algorithm in SupportedAlgorithms
    requires IssuedAtAdmits(payload, later) && NotBeforeAdmits(payload, later) && IssuerIsString(payload)
    requires later >= now
    ensures CastToSeconds(given) == Ok(Some(0))
    ensures var t := Encode(h, payload, EncodableLifetime(given), [], now);
            && t.Ok?
            && Get(t.value.claims, "exp") == Some(VInt(now))
            && Verify(h, t.value, DefaultOptions, later) == Err(Jwt(ExpiredSignature))
  {
    var d := EncodableLifetime(given);
    assert d.FloatSeconds? && 0.0 < d.x < 1.0;
    assert ExpiryStamp(d, now) == Ok(Some(now));
    EncodeSucceeds(h, payload, d, now);
    var t := Encode(h, payload, d, [], now).value;
    assert Get(t.claims, "nbf") == Get(payload, "nbf");
    assert Get(t.claims, "iat") == Get(payload, "iat");
    PastExpiryIsRefused(h, t, later);
  }

  // ---------------------------------------------------------------------------------
  // Looking tokens up

  /** A user built from `{"token": token, **record}`: extra attributes allowed. */
  datatype User = User(token: Token, record: ClaimMap)

  /** What an attribute of the user holds: the token, or a claim from the record. */
  datatype Attribute = TokenAttribute(token: Token) | ClaimAttribute(value: Value)

  /** `getattr(user, name)`: a record claim, which wins even over `token`, else the token itself. */
  function Attr(u: User, name: string): (r: Option<Attribute>)
    ensures HasKey(u.record, name) ==> r == Some(ClaimAttribute(Get(u.record, name).value))
    ensures !HasKey(u.record, name) && name == "token" ==> r == Some(TokenAttribute(u.token))
    ensures !HasKey(u.record, name) && name != "token" ==> r.None?
  {
    if HasKey(u.record, name) then Some(ClaimAttribute(Get(u.record, name).value))
    else if name == "token" then Some(TokenAttribute(u.token))
    else None
  }

  /** A decoded claim is satisfied by the record: it is `None`, or the record has it, equal. */
  predicate Agrees(record: ClaimMap, claim: (string, Value)) {
    claim.1 == VNull || (HasKey(record, claim.0) && PyEq(Get(record, claim.0).value, claim.1))
  }

  /** The position of the first decoded claim the record does not satisfy. */
  function FirstMismatch(decoded: seq<(string, Value)>, record: ClaimMap): (r: Option<nat>)
    ensures r.None? <==> forall i :: 0 <= i < |decoded| ==> Agrees(record, decoded[i])
    ensures r.Some? ==> r.value < |decoded| && !Agrees(record, decoded[r.value])
                        && forall j :: 0 <= j < r.value ==> Agrees(record, decoded[j])
    decreases |decoded|
  {
    if |decoded| == 0 then None
    else if !Agrees(record, decoded[0]) then Some(0)
    else
      var rest := FirstMismatch(decoded[1..], record);
      assert forall i :: 1 <= i < |decoded| ==> decoded[i] == decoded[1..][i - 1];
      if rest.Some? then Some(rest.value + 1) else None
  }

  /** Keys the record has beyond the decoded claims never cause a mismatch. */
  lemma ExtraRecordKeysAreIgnored(decoded: seq<(string, Value)>, record: ClaimMap, larger: ClaimMap)
    requires forall k :: HasKey(record, k) ==> Get(larger, k) == Get(record, k)
    requires FirstMismatch(decoded, record).None?
    ensures FirstMismatch(decoded, larger).None?
  {
    forall i | 0 <= i < |decoded|
      ensures Agrees(larger, decoded[i])
    {
      assert Agrees(record, decoded[i]);
    }
  }

  /** Every claim agrees with a record holding exactly those claims. */
  lemma {:induction false} RecordMatchesItself(c: ClaimMap)
    ensures FirstMismatch(c, c) == None
  {
    forall i | 0 <= i < |c|
      ensures Agrees(c, c[i])
    {
      GetAt(c, i);
      PyEqReflexive(c[i].1);
    }
  }

  const LookupFailure: string := "Failed to retrieve token from cache"
  const MismatchPrefix: string := "Token payload mismatch for key: "

  /** `get_current_user(token)`: decode (so a bad or expired token fails before the store is
      consulted), look the record up, then no user for an absent or empty record, an invalid
      token for the first decoded claim the record contradicts, else the user. */
  function GetCurrentUser(b: Backend, store: TokenStore, t: Token, fault: Option<Error>, now: int)
    : (r: Step<TokenStore, Result<Option<User>, Error>>)
    ensures Decode(b.codec, t, DefaultOptions, now).Err? ==>
              r == Step(store, Err(Decode(b.codec, t, DefaultOptions, now).error))
    ensures Decode(b.codec, t, DefaultOptions, now).Ok? && fault.Some? ==>
              r == Step(store, Err(Wrap(LookupFailure, fault.value)))
    ensures r.state == Repo.Get(store, t, now).state || r.state == store
    ensures var decoded := Decode(b.codec, t, DefaultOptions, now);
            var found := Repo.Get(store, t, now);
            decoded.Ok? && fault.None? ==>
              && r.state == found.state
              && ((found.out.None? || found.out.value == []) ==> r.out == Ok(None))
              && (found.out.Some? && found.out.value != [] && FirstMismatch(decoded.value, found.out.value).None? ==>
                    r.out == Ok(Some(User(t, found.out.value))))
              && (found.out.Some? && found.out.value != [] && FirstMismatch(decoded.value, found.out.value).Some? ==>
                    r.out == Err(Jwt(InvalidToken(MismatchPrefix + decoded.value[FirstMismatch(decoded.value, found.out.value).value].0))))
    ensures r.out.Ok? && r.out.value.Some? ==>
              && Decode(b.codec, t, DefaultOptions, now).Ok?
              && r.out.value.value.token == t
              && Repo.Get(store, t, now).out == Some(r.out.value.value.record)
              && |r.out.value.value.record| > 0
              && forall i :: 0 <= i < |Decode(b.codec, t, DefaultOptions, now).value| ==>
                   Agrees(r.out.value.value.record, Decode(b.codec, t, DefaultOptions, now).value[i])
    ensures r.out.Ok? && r.out.value.None? ==>
              fault.None? && Decode(b.codec, t, DefaultOptions, now).Ok?
              && (Repo.Get(store, t, now).out.None? || Repo.Get(store, t, now).out == Some([]))
    ensures r.out.Err? && r.out.error.Jwt? && r.out.error.jwt.InvalidToken? && Decode(b.codec, t, DefaultOptions, now).Ok? ==>
              var decoded := Decode(b.codec, t, DefaultOptions, now).value;
              var record := Repo.Get(store, t, now).out;
              && record.Some?
              && FirstMismatch(decoded, record.value).Some?
              && r.out.error.jwt.reason == MismatchPrefix + decoded[FirstMismatch(decoded, record.value).value].0
  {
    var decoded := Decode(b.codec, t, DefaultOptions, now);
    if decoded.Err? then Step(store, Err(decoded.error))
    else if fault.Some? then Step(store, Err(Wrap(LookupFailure, fault.value)))
    else
      var found := Repo.Get(store, t, now);
      if found.out.None? || |found.out.value| == 0 then Step(found.state, Ok(None))
      else
        var mismatch := FirstMismatch(decoded.value, found.out.value);
        if mismatch.Some? then
          Step(found.state, Err(Jwt(InvalidToken(MismatchPrefix + decoded.value[mismatch.value].0))))
        else Step(found.state, Ok(Some(User(t, found.out.value))))
  }

  /** `invalidate_token(token)`: the record is deleted without decoding the token; a failing
      store's error propagates unwrapped. */
  function InvalidateToken(store: TokenStore, t: Token, fault: Option<Error>): (r: Step<TokenStore, Result<(), Error>>)
    ensures fault.Some? ==> r == Step(store, Err(fault.value))
    ensures fault.None? ==> r.out.Ok? && t !in r.state.values && t !in r.state.expirations
    ensures forall k :: k != t && k in store.values ==> k in r.state.values && r.state.values[k] == store.values[k]
    ensures forall k :: k != t && k in store.expirations ==> k in r.state.expirations && r.state.expirations[k] == store.expirations[k]
    ensures forall k :: k !in store.values ==> k !in r.state.values
  {
    if fault.Some? then Step(store, Err(fault.value)) else Step(Repo.Delete(store, t), Ok(()))
  }

  const AuthFailure: string := "An unexpected error occurred during authentication"

  /** `authenticate(token)`: the user lookup, with signing-library errors re-raised as they
      are and every other failure wrapped. */
  function Authenticate(b: Backend, store: TokenStore, t: Token, fault: Option<Error>, now: int)
    : (r: Step<TokenStore, Result<Option<User>, Error>>)
    ensures var inner := GetCurrentUser(b, store, t, fault, now);
            && r.state == inner.state
            && (inner.out.Ok? ==> r.out == inner.out)
            && (inner.out.Err? && inner.out.error.Jwt? ==> r.out == inner.out)
            && (inner.out.Err? && !inner.out.error.Jwt? ==>
                  r.out.Err? && r.out.error.Plain? && r.out.error.msg == AuthFailure + ": " + Message(inner.out.error))
  {
    var inner := GetCurrentUser(b, store, t, fault, now);
    if inner.out.Err? && !inner.out.error.Jwt? then Step(inner.state, Err(Wrap(AuthFailure, inner.out.error)))
    else inner
  }

  // ---------------------------------------------------------------------------------
  // Lifecycle properties

  /** A token issued for a non-empty payload authenticates, until it expires, as a user
      carrying the token and exactly that payload, provided the library accepts the
      payload's registered claims: `nbf` and `iat` reached, no audience, string `iss`, `sub`
      and `jti`. */
  lemma CreateThenAuthenticate(b: Backend, store: TokenStore, payload: ClaimMap, given: Duration, now: int, later: int)
    requires |payload| > 0 && AllSerializable(payload) && !HasKey(payload, "exp")
    requires b.codec.algorithm in SupportedAlgorithms
    requires ResolveExpiry(b.config, given).Seconds? && ResolveExpiry(b.config, given).n > 0
    requires NotBeforeAdmits(payload, later) && IssuedAtAdmits(payload, later)
    requires !AudienceSet(payload) && IdentifiersAreStrings(payload)
    requires later < now + ResolveExpiry(b.config, given).n
    ensures var created := CreateToken(b, store, payload, given, None, now);
            && created.out.Ok?
            && Authenticate(b, created.state, created.out.value, None, later).out == Ok(Some(User(created.out.value, payload)))
  {
    var e := ResolveExpiry(b.config, given);
    RoundTrip(b.codec, payload, e, now, later);
    var created := CreateToken(b, store, payload, given, None, now);
    var t := created.out.value;
    assert Decode(b.codec, t, DefaultOptions, later) == Ok(payload);
    assert t in created.state.expirations && created.state.expirations[t] == now + e.n;
    assert Repo.Get(created.state, t, later).out == Some(payload);
    RecordMatchesItself(payload);
  }

  /** Once the lifetime has run out the token is refused as expired, before the store is read,
      for a payload whose `nbf` and `iat` have been reached and whose `iss` is a string. */
  lemma ExpiredTokenIsRefused(b: Backend, store: TokenStore, payload: ClaimMap, n: int, now: int, later: int,
                              after: TokenStore, fault: Option<Error>)
    requires AllSerializable(payload) && b.codec.algorithm in SupportedAlgorithms
    requires IssuedAtAdmits(payload, later) && NotBeforeAdmits(payload, later) && IssuerIsString(payload)
    requires n != 0 && later >= now + n
    ensures var created := CreateToken(b, store, payload, Seconds(n), None, now);
            && created.out.Ok?
            && Authenticate(b, after, created.out.value, fault, later) == Step(after, Err(Jwt(ExpiredSignature)))
  {
    ExpiresAtStamp(b.codec, payload, n, now, later);
  }

  /** After `invalidate_token` no lookup of that token yields a user, at any later time. */
  lemma InvalidatedTokenHasNoUser(b: Backend, store: TokenStore, t: Token, now: int)
    ensures var cleared := InvalidateToken(store, t, None).state;
            var r := GetCurrentUser(b, cleared, t, None, now).out;
            r.Ok? ==> r.value.None?
  {
    Repo.DeleteThenGet(store, t, now);
  }

  /** A zero lifetime, given or configured, issues a token with no `exp` and records no expiry. */
  lemma ZeroLifetimeRecordsNoExpiry(b: Backend, store: TokenStore, payload: ClaimMap, given: Duration, now: int)
    requires ResolveExpiry(b.config, given) == Seconds(0) && !HasKey(payload, "exp")
    ensures var r := CreateToken(b, store, payload, given, None, now);
            r.out.Ok? ==> !HasKey(r.out.value.claims, "exp") && r.state.expirations == store.expirations
  {
    var r := CreateToken(b, store, payload, given, None, now);
    if r.out.Ok? {
      assert Get(r.out.value.claims, "exp") == Get(payload, "exp");
    }
  }

  /** A store that refuses the write means no token is handed out, and the error says so. */
  lemma StoreFailureIssuesNoToken(b: Backend, store: TokenStore, payload: ClaimMap, given: Duration, fault: Error, now: int)
    requires Encode(b.codec, payload, EncodableLifetime(ResolveExpiry(b.config, given)), [], now).Ok?
    ensures CreateToken(b, store, payload, given, Some(fault), now) == Step(store, Err(Wrap(StoreFailure, fault)))
  {
  }

  /** Text that does not parse as a token fails as a decode error, a kind of invalid token. */
  lemma MalformedTokenIsDecodeError(b: Backend, store: TokenStore, reason: string, fault: Option<Error>, now: int)
    ensures Authenticate(b, store, Malformed(reason), fault, now) == Step(store, Err(Jwt(DecodeError(reason))))
  {
  }

  /** A token issued for the empty payload never yields a user: its record is empty. */
  lemma EmptyPayloadHasNoUser(b: Backend, store: TokenStore, given: Duration, now: int, later: int)
    requires b.codec.algorithm in SupportedAlgorithms
    requires ResolveExpiry(b.config, given).Seconds?
    ensures var created := CreateToken(b, store, [], given, None, now);
            created.out.Ok? ==>
              var r := GetCurrentUser(b, created.state, created.out.value, None, later).out;
              r.Ok? ==> r.value.None?
  {
  }

  /** A record that contradicts a decoded claim makes the token invalid, naming the first such claim. */
  lemma AlteredRecordIsRefused(b: Backend, store: TokenStore, t: Token, now: int)
    requires Decode(b.codec, t, DefaultOptions, now).Ok?
    requires Repo.Get(store, t, now).out.Some? && |Repo.Get(store, t, now).out.value| > 0
    requires FirstMismatch(Decode(b.codec, t, DefaultOptions, now).value, Repo.Get(store, t, now).out.value).Some?
    ensures var decoded := Decode(b.codec, t, DefaultOptions, now).value;
            var i := FirstMismatch(decoded, Repo.Get(store, t, now).out.value).value;
            Authenticate(b, store, t, None, now).out == Err(Jwt(InvalidToken(MismatchPrefix + decoded[i].0)))
  {
  }
}
