/** The closed set of storage kinds (config/storage_type.py). */
module StorageType {
  import opened Wrappers
  import opened Errors

  /** `StorageTypes`: a networked Redis store or the process-local store. */
  datatype StorageKind = Redis | Memory

  /** The members in declaration order, as iterating the enum yields them. */
  const Members: seq<StorageKind> := [Redis, Memory]

  /** A member's string value. */
  function Value(k: StorageKind): string {
    match k
    case Redis => "redis"
    case Memory => "memory"
  }

  /** `StorageTypes.values()`. */
  function Values(): (r: seq<string>)
    ensures r == ["redis", "memory"]
    ensures |r| == |Members| && forall i :: 0 <= i < |r| ==> r[i] == Value(Members[i])
  {
    seq(|Members|, i requires 0 <= i < |Members| => Value(Members[i]))
  }

  /** `StorageTypes(s)` as field validation performs it: only a member's value is accepted. */
  function FromValue(s: string): (r: Result<StorageKind, Error>)
    ensures r.Ok? <==> s in Values()
    ensures r.Ok? ==> Value(r.value) == s
    ensures r.Err? ==> r.error.ValueErr?
  {
    if s == "redis" then Ok(Redis)
    else if s == "memory" then Ok(Memory)
    else Err(ValueErr("Input should be 'redis' or 'memory'"))
  }

  /** Every member is listed once, and the values tell members apart. */
  lemma MembersAreExhaustiveAndDistinct(a: StorageKind, b: StorageKind)
    ensures a in Members
    ensures |Members| == 2 && Members[0] != Members[1]
    ensures Value(a) == Value(b) ==> a == b
  {
  }

  /** Member to value to member is the identity. */
  lemma KindRoundTrip(k: StorageKind)
    ensures FromValue(Value(k)) == Ok(k)
  {
  }

  /** Value to member to value is the identity on accepted strings. */
  lemma ValueRoundTrip(s: string)
    requires FromValue(s).Ok?
    ensures Value(FromValue(s).value) == s
  {
  }
}
