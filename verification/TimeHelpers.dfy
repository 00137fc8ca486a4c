/** Normalisation of the expiration values the package accepts (utils/time_helpers.py). */
module TimeHelpers {
  import opened Wrappers
  import opened Errors

  /** An expiration as a caller may pass it: absent, an `int`, a finite `float`, a `float`
      NaN or infinity, a `timedelta` (held as whole microseconds, its exact resolution), or
      some other Python object, of which only the type name and truthiness matter. */
  datatype Duration =
    | NoDuration
    | Seconds(n: int)
    | FloatSeconds(x: real)
    | FloatNaN
    | FloatInfinity(negative: bool)
    | Timedelta(micros: int)
    | Other(typeName: string, truthy: bool)

  const MicrosPerSecond: int := 1000000

  /** Python's `bool(d)`: `None` and every kind of zero are false. */
  predicate Truthy(d: Duration) {
    match d
    case NoDuration => false
    case Seconds(n) => n != 0
    case FloatSeconds(x) => x != 0.0
    case FloatNaN => true
    case FloatInfinity(_) => true
    case Timedelta(us) => us != 0
    case Other(_, truthy) => truthy
  }

  /** `n` is `x` with its fractional part dropped, i.e. rounded toward zero. */
  ghost predicate TruncatesTo(x: real, n: int) {
    && (x >= 0.0 ==> n as real <= x < n as real + 1.0)
    && (x < 0.0 ==> n as real - 1.0 < x <= n as real)
  }

  /** There is only one way to truncate a number. */
  lemma TruncationIsUnique(x: real, n: int, m: int)
    requires TruncatesTo(x, n) && TruncatesTo(x, m)
    ensures n == m
  {
  }

  /** Python's `int(x)` for a float. */
  function TruncReal(x: real): (r: int)
    ensures TruncatesTo(x, r)
  {
    if x >= 0.0 then x.Floor else -((-x).Floor)
  }

  /** `a / b` rounded toward zero, as `int(td.total_seconds())` rounds. */
  function TruncDiv(a: int, b: int): (r: int)
    requires b > 0
    ensures a >= 0 ==> r * b <= a < r * b + b
    ensures a < 0 ==> r * b - b < a <= r * b
  {
    if a >= 0 then a / b else -((-a) / b)
  }

  /** What `int()` says of a float NaN and of a float infinity. */
  const NanToInt: string := "cannot convert float NaN to integer"
  const InfinityToInt: string := "cannot convert float infinity to integer"

  /** `cast_to_seconds`: whole seconds, `None` for no expiration, the `int()` error of a
      non-finite float, or a `TypeError` for any other type. */
  function CastToSeconds(d: Duration): (r: Result<Option<int>, Error>)
    ensures r == Ok(None) <==> d.NoDuration?
    ensures r.Err? <==> d.Other? || d.FloatNaN? || d.FloatInfinity?
    ensures d.Other? ==> r == Err(TypeErr("Invalid expiration type"))
    ensures d.FloatNaN? ==> r == Err(ValueErr(NanToInt))
    ensures d.FloatInfinity? ==> r == Err(OverflowErr(InfinityToInt))
    ensures d.Seconds? ==> r == Ok(Some(d.n))
    ensures d.FloatSeconds? ==> r.Ok? && r.value.Some? && TruncatesTo(d.x, r.value.value)
    ensures d.Timedelta? ==>
              r.Ok? && r.value.Some? && TruncatesTo(d.micros as real / MicrosPerSecond as real, r.value.value)
  {
    match d
    case NoDuration => Ok(None)
    case Seconds(n) => Ok(Some(n))
    case FloatSeconds(x) => Ok(Some(TruncReal(x)))
    case FloatNaN => Err(ValueErr(NanToInt))
    case FloatInfinity(_) => Err(OverflowErr(InfinityToInt))
    case Timedelta(us) =>
      var s := TruncDiv(us, MicrosPerSecond);
      TruncDivIsTruncation(us);
      Ok(Some(s))
    case Other(_, _) => Err(TypeErr("Invalid expiration type"))
  }

  /** Whole-second truncation of microseconds is the truncation of the exact quotient. */
  lemma TruncDivIsTruncation(us: int)
    ensures TruncatesTo(us as real / MicrosPerSecond as real, TruncDiv(us, MicrosPerSecond))
  {
    var r := TruncDiv(us, MicrosPerSecond);
    var q := us as real / 1000000.0;
    assert us as real == q * 1000000.0;
    if us >= 0 {
      assert (r * 1000000) as real <= us as real < (r * 1000000 + 1000000) as real;
    } else {
      assert (r * 1000000 - 1000000) as real < us as real <= (r * 1000000) as real;
    }
  }

  /** A `timedelta` and the `float` of the same number of seconds normalise alike. */
  lemma TimedeltaAgreesWithFloat(us: int)
    ensures CastToSeconds(Timedelta(us)) == CastToSeconds(FloatSeconds(us as real / MicrosPerSecond as real))
  {
    var a := CastToSeconds(Timedelta(us));
    var b := CastToSeconds(FloatSeconds(us as real / MicrosPerSecond as real));
    TruncationIsUnique(us as real / MicrosPerSecond as real, a.value.value, b.value.value);
  }

  /** Normalising an already normalised value changes nothing. */
  lemma CastIsIdempotent(d: Duration)
    requires CastToSeconds(d).Ok? && CastToSeconds(d).value.Some?
    ensures CastToSeconds(Seconds(CastToSeconds(d).value.value)) == CastToSeconds(d)
  {
  }

  /** A zero of any kind normalises to a present zero, not to `None`: only `None` means "no expiration". */
  lemma ZeroIsPresent(d: Duration)
    requires d.Seconds? || d.FloatSeconds? || d.Timedelta?
    requires !Truthy(d)
    ensures CastToSeconds(d) == Ok(Some(0))
  {
  }

  /** For an `int`, normalisation never turns a falsy expiration into a truthy one, nor the
      reverse. A float or `timedelta` under a second is the exception, see below. */
  lemma CastPreservesTruthiness(d: Duration)
    requires d.Seconds?
    ensures CastToSeconds(d).Ok? && CastToSeconds(d).value.Some?
    ensures (CastToSeconds(d).value.value != 0) == Truthy(d)
  {
  }

  /** A non-zero float or `timedelta` under one second is truthy, yet normalises to zero,
      which the repository treats as "no expiration". */
  lemma SubSecondIsTruthyButCastsToZero(d: Duration)
    requires d.FloatSeconds? ==> -1.0 < d.x < 1.0 && d.x != 0.0
    requires d.Timedelta? ==> -MicrosPerSecond < d.micros < MicrosPerSecond && d.micros != 0
    requires d.FloatSeconds? || d.Timedelta?
    ensures Truthy(d) && CastToSeconds(d) == Ok(Some(0))
  {
  }
}
