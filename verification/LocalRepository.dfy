/** The process-local repository: a value map plus an expiry map, swept lazily on `get`
    (repository/local.py). The clock is the parameter `now`, in whole seconds. */
module LocalRepository {
  import opened Wrappers
  import opened Errors
  import opened TimeHelpers

  /** `_store` and `_expirations`; an expiry is an absolute instant. */
  datatype Store<K(!new), V> = Store(values: map<K, V>, expirations: map<K, int>)

  /** The state `__init__` creates. */
  function Empty<K(!new), V>(): Store<K, V> {
    Store(map[], map[])
  }

  /** Every key that has an expiry also has a value. */
  predicate Valid<K(!new), V>(s: Store<K, V>) {
    s.expirations.Keys <= s.values.Keys
  }

  /** The key's recorded expiry instant has passed (strictly). */
  predicate Expired<K(!new), V>(s: Store<K, V>, key: K, now: int) {
    key in s.expirations && now > s.expirations[key]
  }

  /** `delete`: the key leaves both maps; an absent key is no error. */
  function Delete<K(!new), V>(s: Store<K, V>, key: K): (r: Store<K, V>)
    ensures key !in r.values && key !in r.expirations
    ensures forall k :: k != key ==> (k in r.values <==> k in s.values) && (k in r.expirations <==> k in s.expirations)
    ensures forall k :: k != key && k in s.values ==> r.values[k] == s.values[k]
    ensures forall k :: k != key && k in s.expirations ==> r.expirations[k] == s.expirations[k]
    ensures key !in s.values && key !in s.expirations ==> r == s
  {
    Store(s.values - {key}, s.expirations - {key})
  }

  /** `get`: a value whose expiry has passed is deleted and reported absent; otherwise the
      stored value, if any, is returned and the state is left as it was. */
  function Get<K(!new), V>(s: Store<K, V>, key: K, now: int): (r: Step<Store<K, V>, Option<V>>)
    ensures Expired(s, key, now) ==> r.out.None? && r.state == Delete(s, key)
    ensures !Expired(s, key, now) ==> r.state == s
    ensures !Expired(s, key, now) ==> (r.out.Some? <==> key in s.values)
    ensures r.out.Some? ==> key in s.values && r.out.value == s.values[key]
  {
    if Expired(s, key, now) then Step(Delete(s, key), None)
    else if key in s.values then Step(s, Some(s.values[key]))
    else Step(s, None)
  }

  /** `set`: the value is always written (before the expiration is even normalised, so an
      invalid expiration type, a NaN or an infinity still overwrites the value); a non-zero normalised expiration
      records `now + seconds`; `None` or zero leave the expiry map untouched. */
  function Set<K(!new), V>(s: Store<K, V>, key: K, value: V, expiration: Duration, now: int): (r: Step<Store<K, V>, Result<(), Error>>)
    ensures key in r.state.values && r.state.values[key] == value
    ensures forall k :: k != key ==> (k in r.state.values <==> k in s.values)
    ensures forall k :: k != key && k in s.values ==> r.state.values[k] == s.values[k]
    ensures r.out.Err? <==> CastToSeconds(expiration).Err?
    ensures r.out.Err? ==> r.out.error == CastToSeconds(expiration).error
    ensures match CastToSeconds(expiration)
            case Ok(Some(n)) =>
              r.state.expirations == if n != 0 then s.expirations[key := now + n] else s.expirations
            case _ => r.state.expirations == s.expirations
  {
    var written := s.values[key := value];
    match CastToSeconds(expiration)
    case Err(e) => Step(Store(written, s.expirations), Err(e))
    case Ok(seconds) =>
      if seconds.Some? && seconds.value != 0 then
        Step(Store(written, s.expirations[key := now + seconds.value]), Ok(()))
      else
        Step(Store(written, s.expirations), Ok(()))
  }

  lemma EmptyIsValid<K(!new), V>()
    ensures Valid(Empty<K, V>())
  {
  }

  /** Every operation keeps every expiring key backed by a value. */
  lemma GetPreservesValidity<K(!new), V>(s: Store<K, V>, key: K, now: int)
    requires Valid(s)
    ensures Valid(Get(s, key, now).state)
  {
  }

  lemma SetPreservesValidity<K(!new), V>(s: Store<K, V>, key: K, value: V, expiration: Duration, now: int)
    requires Valid(s)
    ensures Valid(Set(s, key, value, expiration, now).state)
  {
  }

  lemma DeletePreservesValidity<K(!new), V>(s: Store<K, V>, key: K)
    requires Valid(s)
    ensures Valid(Delete(s, key))
  {
  }

  /** At or before the expiry instant the value is served; one second later it is gone from both maps. */
  lemma ExpiryIsStrict<K(!new), V>(s: Store<K, V>, key: K, value: V, seconds: int, t: int, now: int)
    requires seconds != 0
    ensures var w := Set(s, key, value, Seconds(seconds), now).state;
            (t <= now + seconds ==> Get(w, key, t) == Step(w, Some(value)))
            && (t > now + seconds ==> Get(w, key, t).out.None?
                                      && key !in Get(w, key, t).state.values
                                      && key !in Get(w, key, t).state.expirations)
  {
  }

  /** A `set` with no expiration keeps an expiry recorded earlier for the same key. */
  lemma SetWithoutExpiryKeepsOldExpiry<K(!new), V>(s: Store<K, V>, key: K, value: V, now: int)
    requires key in s.expirations
    ensures var w := Set(s, key, value, NoDuration, now).state;
            key in w.expirations && w.expirations[key] == s.expirations[key]
  {
  }

  /** After a `delete`, `get` finds nothing, at any time. */
  lemma DeleteThenGet<K(!new), V>(s: Store<K, V>, key: K, now: int)
    ensures Get(Delete(s, key), key, now) == Step(Delete(s, key), None)
  {
  }

  /** A `set` that records no expiry is served until it is overwritten or deleted. */
  lemma SetWithoutExpiryNeverLapses<K(!new), V>(s: Store<K, V>, key: K, value: V, now: int, later: int)
    requires key !in s.expirations
    ensures var w := Set(s, key, value, NoDuration, now).state;
            Get(w, key, later) == Step(w, Some(value))
  {
  }

  /** The repository interface: exactly `get`, `set` (with an optional expiration) and `delete`. */
  datatype Request<K(!new), V> =
    | GetRequest(key: K)
    | SetRequest(key: K, value: V, expiration: Duration)
    | DeleteRequest(key: K)

  function Apply<K(!new), V>(s: Store<K, V>, request: Request<K, V>, now: int): (r: Store<K, V>)
    ensures forall k :: k != request.key ==>
      (k in r.values <==> k in s.values) && (k in s.values ==> r.values[k] == s.values[k])
    ensures forall k :: k != request.key ==>
      (k in r.expirations <==> k in s.expirations) && (k in s.expirations ==> r.expirations[k] == s.expirations[k])
  {
    match request
    case GetRequest(key) => Get(s, key, now).state
    case SetRequest(key, value, expiration) => Set(s, key, value, expiration, now).state
    case DeleteRequest(key) => Delete(s, key)
  }

  /** Runs timed requests in order; the clock is whatever the caller supplies for each. */
  function Run<K(!new), V>(s: Store<K, V>, requests: seq<(Request<K, V>, int)>): Store<K, V>
    decreases |requests|
  {
    if |requests| == 0 then s else Run(Apply(s, requests[0].0, requests[0].1), requests[1..])
  }

  /** Validity holds from the initial state through any sequence of requests. */
  lemma {:induction false} RunPreservesValidity<K(!new), V>(s: Store<K, V>, requests: seq<(Request<K, V>, int)>)
    requires Valid(s)
    ensures Valid(Run(s, requests))
    decreases |requests|
  {
    if |requests| > 0 {
      var (request, now) := requests[0];
      match request {
        case GetRequest(key) => GetPreservesValidity(s, key, now);
        case SetRequest(key, value, expiration) => SetPreservesValidity(s, key, value, expiration, now);
        case DeleteRequest(key) => DeletePreservesValidity(s, key);
      }
      RunPreservesValidity(Apply(s, request, now), requests[1..]);
    }
  }
}
