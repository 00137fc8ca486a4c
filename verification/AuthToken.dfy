/** The authentication settings and their validation (config/auth_token.py). */
module AuthToken {
  import opened Wrappers
  import opened Errors
  import opened TimeHelpers
  import Text

  /** `AuthConfig`: the signing secret, the algorithm and the default token lifetime. */
  datatype AuthConfig = AuthConfig(secret: string, algorithm: string, expirationSeconds: int)

  const DefaultSecret: string := "default_secret"
  const DefaultAlgorithm: string := "HS256"
  const DefaultExpirationSeconds: int := 3600

  /** The settings every field left at its default gives. */
  const DefaultAuthConfig: AuthConfig := AuthConfig(DefaultSecret, DefaultAlgorithm, DefaultExpirationSeconds)

  /** A value offered for `expiration_seconds` before validation: an `int`, a finite
      `float`, a float NaN or infinity, a `str`, a `Decimal` (an exact number), or an
      object that cannot be compared with an `int` at all (`None`, a list, ...). */
  datatype RawExpiration =
    | RawInt(i: int)
    | RawFloat(x: real)
    | RawFloatNaN
    | RawFloatInfinity(negative: bool)
    | RawStr(s: string)
    | RawDecimal(q: real)
    | RawOther(typeName: string)

  const NegativeExpiration: string := "expiration_seconds must be greater than 0"
  const FractionalNumber: string := "Input should be a valid integer, got a number with a fractional part"

  /** `validate_expiration_seconds` followed by the field's own integer coercion. Ints, floats
      and strings are passed through `int()` (a float truncated toward zero, a string
      parsed, a NaN or infinity refused), then a negative result is rejected. Zero is
      accepted despite the message. A `Decimal` is compared with zero as it is, and then
      accepted only when it is a whole number. Any other object cannot be compared with
      zero. An `OverflowError` is not a validation error and escapes as it is. */
  function ValidateExpirationSeconds(v: RawExpiration): (r: Result<int, Error>)
    ensures r.Ok? ==> r.value >= 0
    ensures v.RawInt? ==> (r.Ok? <==> v.i >= 0) && (r.Ok? ==> r.value == v.i)
    ensures v.RawFloat? ==> (r.Ok? <==> v.x > -1.0) && (r.Ok? ==> TruncatesTo(v.x, r.value))
    ensures v.RawStr? ==> (r.Ok? <==> Text.ParseInt(v.s).Some? && Text.ParseInt(v.s).value >= 0)
                          && (r.Ok? ==> r.value == Text.ParseInt(v.s).value)
    ensures v.RawDecimal? ==> (r.Ok? <==> v.q >= 0.0 && v.q.Floor as real == v.q) && (r.Ok? ==> r.value as real == v.q)
    ensures v.RawFloatNaN? ==> r == Err(ValueErr(NanToInt))
    ensures v.RawFloatInfinity? ==> r == Err(OverflowErr(InfinityToInt))
    ensures r.Err? && !v.RawOther? && !v.RawFloatInfinity? ==> r.error.ValueErr?
    ensures v.RawOther? ==> r.Err? && r.error.TypeErr?
  {
    var coerced: Result<int, Error> :=
      match v
      case RawInt(i) => Ok(i)
      case RawFloat(x) => Ok(TruncReal(x))
      case RawFloatNaN => Err(ValueErr(NanToInt))
      case RawFloatInfinity(_) => Err(OverflowErr(InfinityToInt))
      case RawStr(s) =>
        var n := Text.ParseInt(s);
        if n.Some? then Ok(n.value) else Err(ValueErr("invalid literal for int() with base 10"))
      case RawDecimal(q) =>
        if q < 0.0 then Err(ValueErr(NegativeExpiration))
        else if q.Floor as real != q then Err(ValueErr(FractionalNumber))
        else Ok(q.Floor)
      case RawOther(name) => Err(TypeErr("'<' not supported between instances of '" + name + "' and 'int'"));
    if coerced.Err? then coerced
    else if coerced.value < 0 then Err(ValueErr(NegativeExpiration))
    else coerced
  }

  /** `AuthConfig(**fields)`: each field not given takes its default. */
  function NewAuthConfig(secret: Option<string>, algorithm: Option<string>, expiration: Option<RawExpiration>)
    : (r: Result<AuthConfig, Error>)
    ensures expiration.None? ==> r.Ok? && r.value.expirationSeconds == DefaultExpirationSeconds
    ensures expiration.Some? ==> (r.Ok? <==> ValidateExpirationSeconds(expiration.value).Ok?)
    ensures r.Ok? ==> r.value.expirationSeconds >= 0
    ensures r.Ok? ==> r.value.secret == (if secret.Some? then secret.value else DefaultSecret)
    ensures r.Ok? ==> r.value.algorithm == (if algorithm.Some? then algorithm.value else DefaultAlgorithm)
  {
    var s := if secret.Some? then secret.value else DefaultSecret;
    var a := if algorithm.Some? then algorithm.value else DefaultAlgorithm;
    if expiration.None? then Ok(AuthConfig(s, a, DefaultExpirationSeconds))
    else
      var e := ValidateExpirationSeconds(expiration.value);
      if e.Err? then Err(e.error) else Ok(AuthConfig(s, a, e.value))
  }

  /** `expiration_minutes`: whole minutes, rounded down, or none for a zero lifetime. */
  function ExpirationMinutes(c: AuthConfig): (r: Option<int>)
    ensures r.None? <==> c.expirationSeconds == 0
    ensures r.Some? ==> r.value * 60 <= c.expirationSeconds < r.value * 60 + 60
  {
    if c.expirationSeconds != 0 then Some(c.expirationSeconds / 60) else None
  }

  /** The defaults, and the lifetimes the configuration documents: an hour is 60 minutes and
      half an hour is 30. */
  lemma DefaultsAndMinutes()
    ensures NewAuthConfig(None, None, None) == Ok(DefaultAuthConfig)
    ensures ExpirationMinutes(DefaultAuthConfig) == Some(60)
    ensures ExpirationMinutes(AuthConfig("mysecret", "HS512", 1800)) == Some(30)
  {
  }

  /** Zero is a valid lifetime, and so is any float above -1, which `int()` truncates to zero;
      -1 is the first value refused. */
  lemma ValidationBoundary()
    ensures ValidateExpirationSeconds(RawInt(0)) == Ok(0)
    ensures ValidateExpirationSeconds(RawFloat(-0.5)) == Ok(0)
    ensures ValidateExpirationSeconds(RawInt(-1)) == Err(ValueErr(NegativeExpiration))
    ensures ValidateExpirationSeconds(RawDecimal(60.0)) == Ok(60)
    ensures ValidateExpirationSeconds(RawDecimal(0.5)).Err?
  {
  }

  /** The minutes are determined by the seconds alone, and a lifetime under a minute still has
      minutes, namely zero. */
  lemma MinutesAreFloorDivision(c: AuthConfig, m: int)
    requires c.expirationSeconds != 0
    requires m * 60 <= c.expirationSeconds < m * 60 + 60
    ensures ExpirationMinutes(c) == Some(m)
  {
  }
}
