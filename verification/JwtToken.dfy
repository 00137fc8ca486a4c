/** The token codec around the signing library (utils/jwt_token.py). The HMAC itself and
    the compact wire format are abstract: a token is the claim set together with the key
    and algorithm its signature was made with. */
module JwtToken {
  import opened Wrappers
  import opened Errors
  import opened Claims
  import opened TimeHelpers
  import Text

  const DefaultAlgorithm: string := "HS256"

  /** The algorithms a string secret can sign with: the HMAC family. */
  const SupportedAlgorithms: set<string> := {"HS256", "HS384", "HS512"}

  /** A `JWTHandler`: the shared secret and the one algorithm it signs and accepts. */
  datatype Handler = Handler(secret: string, algorithm: string)

  /** `JWTHandler(secret, algorithm="HS256")`. */
  function NewHandler(secret: string, algorithm: Option<string>): (h: Handler)
    ensures h.secret == secret
    ensures algorithm.Some? ==> h.algorithm == algorithm.value
    ensures algorithm.None? ==> h.algorithm == "HS256"
  {
    Handler(secret, if algorithm.Some? then algorithm.value else DefaultAlgorithm)
  }

  /** A token as the verifier sees it: a well-formed token whose header names `alg` and
      whose signature is the MAC of `claims` under `secret` (an altered signature is one
      made under a key nobody holds), or text the library cannot parse, with its reason. */
  datatype Token =
    | Signed(claims: ClaimMap, secret: string, alg: string)
    | Malformed(reason: string)

  /** What the JSON encoder says of a Python `set`. */
  const SetNotSerializable: string := "Object of type set is not JSON serializable"

  /** The library's `encode`: the payload must have a JSON form and the algorithm must exist. */
  function Sign(h: Handler, payload: ClaimMap): (r: Result<Token, Error>)
    ensures r.Ok? <==> AllSerializable(payload) && h.algorithm in SupportedAlgorithms
    ensures r.Ok? ==> r.value == Signed(payload, h.secret, h.algorithm)
    ensures !AllSerializable(payload) ==> r == Err(TypeErr(SetNotSerializable))
  {
    if !AllSerializable(payload) then Err(TypeErr(SetNotSerializable))
    else if h.algorithm !in SupportedAlgorithms then Err(NotImplementedErr("Algorithm not supported"))
    else Ok(Signed(payload, h.secret, h.algorithm))
  }

  /** The `exp` instant stamped for `expiration`, on a whole-second clock: none when the
      expiration is falsy; `now + seconds`, rounded down, for a finite number. A NaN or an
      infinity cannot become a `timedelta`; a `timedelta` or any other object is not a
      valid seconds component and raises a type error. */
  function ExpiryStamp(expiration: Duration, now: int): (r: Result<Option<int>, Error>)
    ensures r == Ok(None) <==> !Truthy(expiration)
    ensures r.Err? <==> Truthy(expiration) && !expiration.Seconds? && !expiration.FloatSeconds?
    ensures r.Err? && !expiration.FloatNaN? && !expiration.FloatInfinity? ==> r.error.TypeErr?
    ensures Truthy(expiration) && expiration.Timedelta? ==> r == Err(TypeErr(TimedeltaNotSeconds))
    ensures expiration.FloatNaN? ==> r == Err(ValueErr(NanToInt))
    ensures expiration.FloatInfinity? ==> r == Err(OverflowErr(InfinityToInt))
    ensures expiration.Seconds? && Truthy(expiration) ==> r == Ok(Some(now + expiration.n))
    ensures expiration.FloatSeconds? && Truthy(expiration) ==>
              r.Ok? && r.value.Some? && (r.value.value - now) as real <= expiration.x < (r.value.value - now + 1) as real
  {
    if !Truthy(expiration) then Ok(None)
    else match expiration
      case Seconds(n) => Ok(Some(now + n))
      case FloatSeconds(x) => Ok(Some(now + x.Floor))
      case FloatNaN => Err(ValueErr(NanToInt))
      case FloatInfinity(_) => Err(OverflowErr(InfinityToInt))
      case Timedelta(_) => Err(TypeErr(TimedeltaNotSeconds))
      case Other(name, _) => Err(TypeErr("unsupported type for timedelta seconds component: " + name))
  }

  /** What `timedelta(seconds=...)` says when given a `timedelta`. */
  const TimedeltaNotSeconds: string := "unsupported type for timedelta seconds component: datetime.timedelta"

  const EncodeContext: string := "An unexpected error occurred while encoding the token"
  const DecodeContext: string := "An unexpected error occurred while decoding the token"

  /** The `except` chain of `encode`: signing-library errors unchanged, type errors re-raised
      as type errors naming the payload, everything else wrapped as unexpected. */
  function ClassifyEncodeError(e: Error): (r: Error)
    ensures e.Jwt? <==> r.Jwt?
    ensures e.Jwt? ==> r == e
    ensures e.TypeErr? <==> r.TypeErr?
    ensures e.TypeErr? ==> r.msg == "Invalid type in payload: " + e.msg
    ensures !e.Jwt? && !e.TypeErr? ==> r.Plain? && r.msg == EncodeContext + ": " + Message(e)
  {
    match e
    case Jwt(_) => e
    case TypeErr(m) => TypeErr("Invalid type in payload: " + m)
    case _ => Wrap(EncodeContext, e)
  }

  /** The `except` chain of `decode`: signing-library errors unchanged, everything else wrapped. */
  function ClassifyDecodeError(e: Error): (r: Error)
    ensures e.Jwt? <==> r.Jwt?
    ensures e.Jwt? ==> r == e
    ensures !e.Jwt? ==> r.Plain? && r.msg == DecodeContext + ": " + Message(e)
  {
    if e.Jwt? then e else Wrap(DecodeContext, e)
  }

  /** The claim set `encode` hands to the signer: the payload (a copy; the caller's map is a
      value and cannot change), `exp` set when stamped, then the keyword claims merged over it. */
  function EncodedClaims(payload: ClaimMap, stamp: Option<int>, extra: ClaimMap): (r: ClaimMap)
    ensures forall k :: Get(r, k) == (
              if HasKey(extra, k) then Get(extra, k)
              else if k == "exp" && stamp.Some? then Some(VInt(stamp.value))
              else Get(payload, k))
    ensures stamp.None? && extra == [] ==> r == payload
    ensures stamp.Some? && extra == [] && !HasKey(payload, "exp") ==> r == payload + [("exp", VInt(stamp.value))]
  {
    var stamped := if stamp.Some? then Put(payload, "exp", VInt(stamp.value)) else payload;
    Update(stamped, extra)
  }

  /** `JWTHandler.encode(payload, expiration, **extra)` at clock `now`. */
  function Encode(h: Handler, payload: ClaimMap, expiration: Duration, extra: ClaimMap, now: int): (r: Result<Token, Error>)
    ensures r.Ok? ==> r.value.Signed? && r.value.secret == h.secret && r.value.alg == h.algorithm
    ensures r.Ok? ==> forall k :: Get(r.value.claims, k) == (
                        if HasKey(extra, k) then Get(extra, k)
                        else if k == "exp" && Truthy(expiration) && ExpiryStamp(expiration, now).Ok?
                        then Some(VInt(ExpiryStamp(expiration, now).value.value))
                        else Get(payload, k))
    ensures r.Ok? <==> ExpiryStamp(expiration, now).Ok? && h.algorithm in SupportedAlgorithms
                       && AllSerializable(EncodedClaims(payload, ExpiryStamp(expiration, now).value, extra))
    ensures r.Err? ==> !r.error.Jwt? && (r.error.TypeErr? || r.error.Plain?)
    ensures r.Err? && r.error.TypeErr? ==> "Invalid type in payload: " <= r.error.msg
  {
    var stamp := ExpiryStamp(expiration, now);
    if stamp.Err? then Err(ClassifyEncodeError(stamp.error))
    else
      var signed := Sign(h, EncodedClaims(payload, stamp.value, extra));
      if signed.Err? then Err(ClassifyEncodeError(signed.error)) else signed
  }

  /** The options a caller may pass to `decode`: whether to verify the signature (which also
      governs the time checks) and the claims that must be present. */
  datatype DecodeOptions = DecodeOptions(verifySignature: bool, require: seq<string>)

  const DefaultOptions: DecodeOptions := DecodeOptions(true, [])

  /** A required claim counts as missing when absent or `None`. */
  predicate Missing(claims: ClaimMap, name: string) {
    Get(claims, name).None? || Get(claims, name) == Some(VNull)
  }

  /** The first required claim, in the order given, that is missing. */
  function FirstMissing(claims: ClaimMap, require: seq<string>): (r: Option<string>)
    ensures r.None? <==> forall i :: 0 <= i < |require| ==> !Missing(claims, require[i])
    ensures r.Some? ==> exists i :: 0 <= i < |require| && require[i] == r.value && Missing(claims, r.value)
                          && forall j :: 0 <= j < i ==> !Missing(claims, require[j])
    decreases |require|
  {
    if |require| == 0 then None
    else if Missing(claims, require[0]) then Some(require[0])
    else
      var rest := FirstMissing(claims, require[1..]);
      if rest.Some? then
        ghost var i :| 0 <= i < |require[1..]| && require[1..][i] == rest.value && Missing(claims, rest.value)
                        && forall j :: 0 <= j < i ==> !Missing(claims, require[1..][j]);
        assert require[i + 1] == rest.value && forall j :: 0 <= j < i + 1 ==> !Missing(claims, require[j]);
        rest
      else
        assert forall i :: 1 <= i < |require| ==> require[i] == require[1..][i - 1];
        rest
  }

  /** Python's `int(v)` on a decoded claim value: numbers and numeric strings convert, a
      malformed string is a value error, and `None` or a list is a type error. */
  function IntOf(v: Value): (r: Result<int, Error>)
    ensures v.VInt? ==> r == Ok(v.i)
    ensures v.VBool? ==> r == Ok(BoolAsInt(v.b))
    ensures v.VStr? ==> (r.Ok? <==> Text.ParseInt(v.s).Some?) && (r.Ok? ==> r.value == Text.ParseInt(v.s).value)
    ensures r.Err? ==> (r.error.ValueErr? <==> v.VStr?) && (r.error.TypeErr? <==> !v.VStr?)
  {
    match v
    case VNull => Err(TypeErr("int() argument must be a string, a bytes-like object or a real number, not 'NoneType'"))
    case VBool(b) => Ok(BoolAsInt(b))
    case VInt(i) => Ok(i)
    case VStr(s) =>
      var n := Text.ParseInt(s);
      if n.Some? then Ok(n.value) else Err(ValueErr("invalid literal for int() with base 10"))
    case VList(_) => Err(TypeErr("int() argument must be a string, a bytes-like object or a real number, not 'list'"))
    case VSet(_) => Err(TypeErr("int() argument must be a string, a bytes-like object or a real number, not 'set'"))
  }

  const NbfNotInteger: string := "Not Before claim (nbf) must be an integer."
  const ExpNotInteger: string := "Expiration Time claim (exp) must be an integer."

  const IatNotInteger: string := "Issued At claim (iat) must be an integer."

  /** A time claim as an instant: absent is none, an `int()` value error is the claim's own
      library error, and a type error escapes the library unclassified. */
  function TimeClaim(claims: ClaimMap, name: string, notInteger: JwtError): (r: Result<Option<int>, Error>)
    ensures Get(claims, name).None? ==> r == Ok(None)
    ensures Get(claims, name).Some? ==> (r.Ok? <==> IntOf(Get(claims, name).value).Ok?)
    ensures Get(claims, name).Some? && r.Ok? ==> r == Ok(Some(IntOf(Get(claims, name).value).value))
    ensures r.Err? ==> (r.error == Jwt(notInteger) <==> IntOf(Get(claims, name).value).error.ValueErr?)
    ensures r.Err? && !r.error.Jwt? ==> r.error == IntOf(Get(claims, name).value).error
  {
    var v := Get(claims, name);
    if v.None? then Ok(None)
    else
      var n := IntOf(v.value);
      if n.Ok? then Ok(Some(n.value))
      else if n.error.ValueErr? then Err(Jwt(notInteger))
      else Err(n.error)
  }

  /** `nbf`, if present, is an integer instant already reached at `now`. */
  predicate NotBeforeAdmits(claims: ClaimMap, now: int) {
    var v := Get(claims, "nbf");
    v.None? || (IntOf(v.value).Ok? && IntOf(v.value).value <= now)
  }

  /** `exp`, if present, is an integer instant still ahead of `now`. */
  predicate NotExpired(claims: ClaimMap, now: int) {
    var v := Get(claims, "exp");
    v.None? || (IntOf(v.value).Ok? && IntOf(v.value).value > now)
  }

  /** `iat`, if present, converts to an integer. */
  predicate IssuedAtIsInteger(claims: ClaimMap) {
    var v := Get(claims, "iat");
    v.None? || IntOf(v.value).Ok?
  }

  /** The token names an audience: `aud` is present and truthy. */
  predicate AudienceSet(claims: ClaimMap) {
    Get(claims, "aud").Some? && PyTruthy(Get(claims, "aud").value)
  }

  /** The library's `decode` with `algorithms=[h.algorithm]` and no audience or issuer, at
      clock `now`: parse, then the algorithm and signature, then the required claims, then,
      only when the signature is verified, `iat` (which must be an integer), `nbf` (not
      valid while `nbf > now`), `exp` (expired once `exp <= now`) and `aud` (refused when
      the token names one, since the caller expects none). */
  function Verify(h: Handler, t: Token, opts: DecodeOptions, now: int): (r: Result<ClaimMap, Error>)
    ensures r.Ok? ==> t.Signed? && r.value == t.claims && FirstMissing(t.claims, opts.require).None?
    ensures r.Ok? && opts.verifySignature ==> t.alg == h.algorithm && t.secret == h.secret
    ensures r.Ok? && opts.verifySignature ==>
              && IssuedAtIsInteger(t.claims) && NotBeforeAdmits(t.claims, now)
              && NotExpired(t.claims, now) && !AudienceSet(t.claims)
    ensures t.Signed? && t.alg == h.algorithm && t.alg in SupportedAlgorithms && t.secret == h.secret
            && FirstMissing(t.claims, opts.require).None? && IssuedAtIsInteger(t.claims)
            && NotBeforeAdmits(t.claims, now) && NotExpired(t.claims, now) && !AudienceSet(t.claims)
            ==> r == Ok(t.claims)
  {
    match t
    case Malformed(reason) => Err(Jwt(DecodeError(reason)))
    case Signed(claims, secret, alg) =>
      if opts.verifySignature && alg != h.algorithm then Err(Jwt(InvalidAlgorithm("The specified alg value is not allowed")))
      else if opts.verifySignature && alg !in SupportedAlgorithms then Err(Jwt(InvalidAlgorithm("Algorithm not supported")))
      else if opts.verifySignature && secret != h.secret then Err(Jwt(InvalidSignature))
      else
        var missing := FirstMissing(claims, opts.require);
        if missing.Some? then Err(Jwt(MissingRequiredClaim(missing.value)))
        else if !opts.verifySignature then Ok(claims)
        else
          var iat := TimeClaim(claims, "iat", InvalidIssuedAt(IatNotInteger));
          if iat.Err? then Err(iat.error)
          else
            var nbf := TimeClaim(claims, "nbf", DecodeError(NbfNotInteger));
            if nbf.Err? then Err(nbf.error)
            else if nbf.value.Some? && nbf.value.value > now then Err(Jwt(ImmatureSignature))
            else
              var exp := TimeClaim(claims, "exp", DecodeError(ExpNotInteger));
              if exp.Err? then Err(exp.error)
              else if exp.value.Some? && exp.value.value <= now then Err(Jwt(ExpiredSignature))
              else if AudienceSet(claims) then Err(Jwt(InvalidAudience(AudienceRefused)))
              else Ok(claims)
  }

  const AudienceRefused: string := "Invalid audience"

  /** A verifiable token whose `iat` and `nbf` pass but whose `exp` has been reached is expired. */
  lemma PastExpiryIsRefused(h: Handler, t: Token, now: int)
    requires t.Signed? && t.alg == h.algorithm && h.algorithm in SupportedAlgorithms && t.secret == h.secret
    requires IssuedAtIsInteger(t.claims) && NotBeforeAdmits(t.claims, now)
    requires Get(t.claims, "exp").Some? && IntOf(Get(t.claims, "exp").value).Ok?
    requires IntOf(Get(t.claims, "exp").value).value <= now
    ensures Verify(h, t, DefaultOptions, now) == Err(Jwt(ExpiredSignature))
  {
    assert FirstMissing(t.claims, []).None?;
    assert TimeClaim(t.claims, "iat", InvalidIssuedAt(IatNotInteger)).Ok?;
    var nbf := TimeClaim(t.claims, "nbf", DecodeError(NbfNotInteger));
    assert nbf.Ok? && !(nbf.value.Some? && nbf.value.value > now);
    var exp := TimeClaim(t.claims, "exp", DecodeError(ExpNotInteger));
    assert exp.Ok? && exp.value.Some? && exp.value.value <= now;
  }

  /** `JWTHandler.decode(token, options=opts)` at clock `now`. */
  function Decode(h: Handler, t: Token, opts: DecodeOptions, now: int): (r: Result<ClaimMap, Error>)
    ensures r.Ok? ==> !HasKey(r.value, "exp")
    ensures r.Ok? ==> t.Signed? && forall k :: k != "exp" ==> Get(r.value, k) == Get(t.claims, k)
    ensures r.Ok? && opts.verifySignature ==> t.alg == h.algorithm && t.secret == h.secret
    ensures r.Err? && !r.error.Jwt? ==> r.error.Plain? && DecodeContext + ": " <= r.error.msg
    ensures r.Ok? <==> Verify(h, t, opts, now).Ok?
    ensures r.Ok? ==> r.value == Pop(Verify(h, t, opts, now).value, "exp")
    ensures Verify(h, t, opts, now).Err? && Verify(h, t, opts, now).error.Jwt? ==> r == Verify(h, t, opts, now)
  {
    var raw := Verify(h, t, opts, now);
    if raw.Err? then Err(ClassifyDecodeError(raw.error)) else Ok(Pop(raw.value, "exp"))
  }

  /** Whole-second and falsy expirations are the ones `encode` accepts and stamps exactly. */
  predicate Stampable(e: Duration) {
    e.NoDuration? || e.Seconds?
  }

  /** Encoding succeeds for a JSON-shaped payload under a supported algorithm whenever the
      expiration can be stamped, and its `exp` claim is present exactly when the expiration
      is truthy, holding the stamped instant. */
  lemma EncodeSucceeds(h: Handler, payload: ClaimMap, e: Duration, now: int)
    requires ExpiryStamp(e, now).Ok? && AllSerializable(payload) && h.algorithm in SupportedAlgorithms
    ensures var r := Encode(h, payload, e, [], now);
            r.Ok? && (!HasKey(payload, "exp") ==> (HasKey(r.value.claims, "exp") <==> Truthy(e)))
            && (Truthy(e) ==> Get(r.value.claims, "exp") == Some(VInt(ExpiryStamp(e, now).value.value)))
            && (Truthy(e) && e.Seconds? ==> Get(r.value.claims, "exp") == Some(VInt(now + e.n)))
  {
    var stamp := ExpiryStamp(e, now);
    var claims := EncodedClaims(payload, stamp.value, []);
    if stamp.value.Some? {
      assert Serializable(VInt(stamp.value.value));
    }
    assert AllSerializable(claims);
    var r := Encode(h, payload, e, [], now);
    assert Get(r.value.claims, "exp") == Get(claims, "exp");
  }

  /** `iat`, if present, is an integer instant already reached at `now`. */
  predicate IssuedAtAdmits(claims: ClaimMap, now: int) {
    var v := Get(claims, "iat");
    v.None? || (IntOf(v.value).Ok? && IntOf(v.value).value <= now)
  }

  /** `iss`, if present, is a string. */
  predicate IssuerIsString(claims: ClaimMap) {
    Get(claims, "iss").None? || Get(claims, "iss").value.VStr?
  }

  /** `iss`, `sub` and `jti`, if present, are strings. */
  predicate IdentifiersAreStrings(claims: ClaimMap) {
    && IssuerIsString(claims)
    && (Get(claims, "sub").None? || Get(claims, "sub").value.VStr?)
    && (Get(claims, "jti").None? || Get(claims, "jti").value.VStr?)
  }

  /** Round trip: before expiry, decoding what was encoded under the same handler gives back
      the payload exactly, in order, for every payload without an `exp` claim of its own
      whose other registered claims the library accepts: `nbf` and `iat` already reached,
      no audience, and string `iss`, `sub` and `jti`. */
  lemma RoundTrip(h: Handler, payload: ClaimMap, e: Duration, now: int, later: int)
    requires Stampable(e) && AllSerializable(payload) && h.algorithm in SupportedAlgorithms
    requires !HasKey(payload, "exp") && NotBeforeAdmits(payload, later) && IssuedAtAdmits(payload, later)
    requires !AudienceSet(payload) && IdentifiersAreStrings(payload)
    requires Truthy(e) ==> later < now + e.n
    ensures Encode(h, payload, e, [], now).Ok?
    ensures Decode(h, Encode(h, payload, e, [], now).value, DefaultOptions, later) == Ok(payload)
  {
    StampedClaims(h, payload, e, now);
    var t := Encode(h, payload, e, [], now).value;
    if Truthy(e) {
      var v := VInt(now + e.n);
      StampKeepsRegisteredClaims(payload, v, later);
      AcceptedTokenDecodes(h, t, later);
      PutThenPop(payload, "exp", v);
    } else {
      AcceptedTokenDecodes(h, t, later);
    }
  }

  /** A token that passes every check decodes to its claims without `exp`. */
  lemma AcceptedTokenDecodes(h: Handler, t: Token, now: int)
    requires t.Signed? && t.alg == h.algorithm && h.algorithm in SupportedAlgorithms && t.secret == h.secret
    requires IssuedAtIsInteger(t.claims) && NotBeforeAdmits(t.claims, now)
    requires NotExpired(t.claims, now) && !AudienceSet(t.claims)
    ensures Decode(h, t, DefaultOptions, now) == Ok(Pop(t.claims, "exp"))
  {
    assert FirstMissing(t.claims, []).None?;
  }

  /** Stamping a later `exp` leaves the checks on the other registered claims as they were. */
  lemma StampKeepsRegisteredClaims(payload: ClaimMap, v: Value, now: int)
    requires v.VInt? && v.i > now
    requires NotBeforeAdmits(payload, now) && IssuedAtAdmits(payload, now) && !AudienceSet(payload)
    ensures var c := Put(payload, "exp", v);
            IssuedAtIsInteger(c) && NotBeforeAdmits(c, now) && NotExpired(c, now) && !AudienceSet(c)
  {
    var c := Put(payload, "exp", v);
    assert Get(c, "nbf") == Get(payload, "nbf") && Get(c, "iat") == Get(payload, "iat");
    assert Get(c, "aud") == Get(payload, "aud") && Get(c, "exp") == Some(v);
  }

  /** The claims `encode` signs for a whole-second or falsy lifetime and a payload without
      `exp`: the payload, with `exp` appended when the lifetime is truthy. */
  lemma StampedClaims(h: Handler, payload: ClaimMap, e: Duration, now: int)
    requires Stampable(e) && AllSerializable(payload) && h.algorithm in SupportedAlgorithms
    requires !HasKey(payload, "exp")
    ensures Encode(h, payload, e, [], now).Ok?
    ensures Encode(h, payload, e, [], now).value.claims
            == if Truthy(e) then Put(payload, "exp", VInt(now + e.n)) else payload
  {
    EncodeSucceeds(h, payload, e, now);
  }

  /** At or after the stamped instant the same token is rejected as expired, once its `nbf`
      and `iat` have been reached and its `iss` is a string. */
  lemma ExpiresAtStamp(h: Handler, payload: ClaimMap, n: int, now: int, later: int)
    requires n != 0 && AllSerializable(payload) && h.algorithm in SupportedAlgorithms
    requires NotBeforeAdmits(payload, later) && IssuedAtAdmits(payload, later) && IssuerIsString(payload)
    requires later >= now + n
    ensures Encode(h, payload, Seconds(n), [], now).Ok?
    ensures Decode(h, Encode(h, payload, Seconds(n), [], now).value, DefaultOptions, later) == Err(Jwt(ExpiredSignature))
  {
    EncodeSucceeds(h, payload, Seconds(n), now);
    var t := Encode(h, payload, Seconds(n), [], now).value;
    assert Get(t.claims, "nbf") == Get(payload, "nbf");
    assert Get(t.claims, "iat") == Get(payload, "iat");
    assert Get(t.claims, "exp") == Some(VInt(now + n));
    PastExpiryIsRefused(h, t, later);
  }

  /** A verifier configured for another algorithm refuses the token, whatever the secret. */
  lemma OtherAlgorithmIsRefused(h: Handler, other: Handler, t: Token, now: int)
    requires t.Signed? && t.alg == h.algorithm && other.algorithm != h.algorithm
    ensures Decode(other, t, DefaultOptions, now) == Err(Jwt(InvalidAlgorithm("The specified alg value is not allowed")))
  {
  }

  /** A token whose signature was not made with the verifier's secret is refused. */
  lemma OtherSecretIsRefused(h: Handler, t: Token, now: int)
    requires t.Signed? && t.alg == h.algorithm && h.algorithm in SupportedAlgorithms && t.secret != h.secret
    ensures Decode(h, t, DefaultOptions, now) == Err(Jwt(InvalidSignature))
  {
  }

  /** Requiring a claim the token lacks fails naming that claim. */
  lemma MissingClaimIsReported(h: Handler, t: Token, name: string, now: int)
    requires t.Signed? && t.alg == h.algorithm && h.algorithm in SupportedAlgorithms && t.secret == h.secret
    requires !HasKey(t.claims, name)
    ensures Decode(h, t, DecodeOptions(true, [name]), now) == Err(Jwt(MissingRequiredClaim(name)))
  {
    assert FirstMissing(t.claims, [name]) == Some(name);
  }

  /** Without signature verification any well-formed token decodes, expired or not, under any
      key and algorithm. */
  lemma UnverifiedDecodeAcceptsAnything(h: Handler, t: Token, now: int)
    requires t.Signed?
    ensures Decode(h, t, DecodeOptions(false, []), now) == Ok(Pop(t.claims, "exp"))
  {
    assert FirstMissing(t.claims, []) == None;
  }

  /** A `nbf` merged in through the keyword claims holds the token back until that instant,
      for a payload with an integer `iat` and a string `iss`. */
  lemma FutureNotBeforeIsImmature(h: Handler, payload: ClaimMap, nbf: int, now: int, later: int)
    requires AllSerializable(payload) && h.algorithm in SupportedAlgorithms && IssuedAtIsInteger(payload)
    requires IssuerIsString(payload)
    requires later < nbf
    ensures Encode(h, payload, NoDuration, [("nbf", VInt(nbf))], now).Ok?
    ensures Decode(h, Encode(h, payload, NoDuration, [("nbf", VInt(nbf))], now).value, DefaultOptions, later)
            == Err(Jwt(ImmatureSignature))
  {
    var extra: ClaimMap := [("nbf", VInt(nbf))];
    GetAt(extra, 0);
    assert AllSerializable(extra) by { assert Serializable(VInt(nbf)); }
    assert AllSerializable(EncodedClaims(payload, None, extra));
    var t := Encode(h, payload, NoDuration, extra, now).value;
    assert Get(t.claims, "nbf") == Some(VInt(nbf));
    assert !HasKey(extra, "iat") && Get(t.claims, "iat") == Get(payload, "iat");
    FutureNotBeforeIsRefused(h, t, later);
  }

  /** A verifiable token with an integer `iat` whose `nbf` lies ahead is not yet valid. */
  lemma FutureNotBeforeIsRefused(h: Handler, t: Token, now: int)
    requires t.Signed? && t.alg == h.algorithm && h.algorithm in SupportedAlgorithms && t.secret == h.secret
    requires IssuedAtIsInteger(t.claims)
    requires Get(t.claims, "nbf").Some? && IntOf(Get(t.claims, "nbf").value).Ok?
    requires IntOf(Get(t.claims, "nbf").value).value > now
    ensures Verify(h, t, DefaultOptions, now) == Err(Jwt(ImmatureSignature))
  {
    assert FirstMissing(t.claims, []).None?;
    assert TimeClaim(t.claims, "iat", InvalidIssuedAt(IatNotInteger)).Ok?;
    var nbf := TimeClaim(t.claims, "nbf", DecodeError(NbfNotInteger));
    assert nbf.Ok? && nbf.value.Some? && nbf.value.value > now;
  }

  /** A payload without a JSON form is refused with a type error before anything is signed. */
  lemma UnserializablePayloadIsTypeError(h: Handler, payload: ClaimMap, now: int)
    requires !AllSerializable(payload)
    ensures Encode(h, payload, NoDuration, [], now)
            == Err(TypeErr("Invalid type in payload: " + SetNotSerializable))
  {
    assert EncodedClaims(payload, None, []) == payload;
    assert Sign(h, payload) == Err(TypeErr(SetNotSerializable));
  }

  /** A token that names an audience is refused, since `decode` is never given one. */
  lemma AudienceIsRefused(h: Handler, audience: string, now: int)
    requires h.algorithm in SupportedAlgorithms && audience != ""
    ensures Encode(h, [("aud", VStr(audience))], NoDuration, [], now).Ok?
    ensures Decode(h, Encode(h, [("aud", VStr(audience))], NoDuration, [], now).value, DefaultOptions, now)
            == Err(Jwt(InvalidAudience(AudienceRefused)))
  {
    var payload: ClaimMap := [("aud", VStr(audience))];
    GetAt(payload, 0);
    assert AllSerializable(payload) by { assert Serializable(VStr(audience)); }
    assert EncodedClaims(payload, None, []) == payload;
    assert Get(payload, "iat").None? && Get(payload, "nbf").None? && Get(payload, "exp").None? by {
      assert Keys(payload) == ["aud"];
    }
  }

  /** An `iat` that is not an integer is refused with the library's own error. */
  lemma NonIntegerIssuedAtIsRefused(h: Handler, iat: string, now: int)
    requires h.algorithm in SupportedAlgorithms && Text.ParseInt(iat).None?
    ensures Encode(h, [("iat", VStr(iat))], NoDuration, [], now).Ok?
    ensures Decode(h, Encode(h, [("iat", VStr(iat))], NoDuration, [], now).value, DefaultOptions, now)
            == Err(Jwt(InvalidIssuedAt(IatNotInteger)))
  {
    var payload: ClaimMap := [("iat", VStr(iat))];
    GetAt(payload, 0);
    assert AllSerializable(payload) by { assert Serializable(VStr(iat)); }
    assert EncodedClaims(payload, None, []) == payload;
  }
}
