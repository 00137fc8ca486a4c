/** Storage configuration records and the Redis URL they describe (config/storage.py). */
module Storage {
  import opened Wrappers
  import opened Errors
  import opened StorageType
  import Text

  /** Fields a caller adds beyond the declared ones (the models allow extras), in order. */
  type Extras = seq<(string, string)>

  /** `RedisConfig`: connection parameters for the networked store. */
  datatype RedisConfig = RedisConfig(
    kind: StorageKind,
    host: string,
    port: int,
    db: int,
    password: Option<string>,
    url: Option<string>,
    extras: Extras)

  /** A storage configuration: the base `StorageConfig` or its `RedisConfig` subclass. */
  datatype StorageConfig =
    | Basic(kind: StorageKind, extras: Extras)
    | RedisSettings(redis: RedisConfig)

  function KindOf(c: StorageConfig): StorageKind {
    match c
    case Basic(k, _) => k
    case RedisSettings(r) => r.kind
  }

  /** `StorageConfig()`: the in-memory kind. */
  const DefaultStorageConfig: StorageConfig := Basic(Memory, [])

  /** `RedisConfig()` with the environment unset: the redis kind on localhost:6379, db 0. */
  const DefaultRedisConfig: RedisConfig := RedisConfig(Redis, "localhost", 6379, 0, None, None, [])

  lemma DefaultKinds()
    ensures KindOf(DefaultStorageConfig) == Memory
    ensures DefaultRedisConfig.kind == Redis
  {
  }

  /** `StorageConfig(storage_type=s, **extras)`: the kind string is validated at construction. */
  function NewStorageConfig(kindText: Option<string>, extras: Extras): (r: Result<StorageConfig, Error>)
    ensures kindText.None? ==> r == Ok(Basic(Memory, extras))
    ensures kindText.Some? ==> (r.Ok? <==> kindText.value in Values())
    ensures r.Ok? ==> r.value.Basic? && r.value.extras == extras
    ensures r.Ok? && kindText.Some? ==> Value(KindOf(r.value)) == kindText.value
  {
    match kindText
    case None => Ok(Basic(Memory, extras))
    case Some(s) =>
      match FromValue(s)
      case Ok(k) => Ok(Basic(k, extras))
      case Err(e) => Err(e)
  }

  /** Python truthiness of an optional string: present and non-empty. */
  predicate Given(s: Option<string>) {
    s.Some? && s.value != ""
  }

  function Authority(c: RedisConfig): string {
    c.host + ":" + Text.IntToString(c.port) + "/" + Text.IntToString(c.db)
  }

  const Scheme: string := "redis://"

  /** The credentials segment between scheme and host: `:password@`, or nothing. */
  function Credentials(c: RedisConfig): string {
    if Given(c.password) then ":" + c.password.value + "@" else ""
  }

  /** `RedisConfig.get_url`: an explicit url wins; otherwise the url is built from the fields,
      as the redis scheme, the credentials when a password is given, and the authority. */
  function GetUrl(c: RedisConfig): (r: string)
    ensures Given(c.url) ==> r == c.url.value
    ensures !Given(c.url) ==>
              && |Scheme| + |Authority(c)| <= |r|
              && r[..|Scheme|] == Scheme
              && r[|r| - |Authority(c)|..] == Authority(c)
              && r[|Scheme|..|r| - |Authority(c)|] == Credentials(c)
  {
    if Given(c.url) then c.url.value
    else if Given(c.password) then "redis://:" + c.password.value + "@" + Authority(c)
    else "redis://" + Authority(c)
  }

  /** With an explicit url, the connection fields play no part. */
  lemma UrlOverridesFields(c: RedisConfig, d: RedisConfig)
    requires Given(c.url) && c.url == d.url
    ensures GetUrl(c) == GetUrl(d) == c.url.value
  {
  }

  /** An empty url or password behaves exactly as an absent one. */
  lemma EmptyMeansAbsent(c: RedisConfig)
    ensures GetUrl(c.(url := Some(""))) == GetUrl(c.(url := None))
    ensures GetUrl(c.(password := Some(""))) == GetUrl(c.(password := None))
  {
  }

  /** A built url has the redis scheme and ends in the db index, which can be read back from it. */
  lemma BuiltUrlShape(c: RedisConfig)
    requires !Given(c.url)
    ensures "redis://" <= GetUrl(c)
    ensures Text.EndsWith(GetUrl(c), "/" + Text.IntToString(c.db))
    ensures var u := GetUrl(c); var n := |Text.IntToString(c.db)|;
      Text.ParseInt(u[|u| - n..]) == Some(c.db)
  {
    var u := GetUrl(c);
    var dbText := Text.IntToString(c.db);
    var prefix := if Given(c.password) then "redis://:" + c.password.value + "@" else "redis://";
    var head := c.host + ":" + Text.IntToString(c.port);
    assert Authority(c) == head + ("/" + dbText);
    assert u == prefix + Authority(c);
    assert u == (prefix + head) + ("/" + dbText);
    Text.EndsWithAppend(prefix + head, "/" + dbText);
    assert u == (prefix + head + "/") + dbText;
    Text.EndsWithAppend(prefix + head + "/", dbText);
    assert "redis://" <= prefix;
    assert u == prefix + Authority(c);
    Text.IntToStringRoundTrip(c.db);
  }

  /** The attributes `__repr__` prints, in order: the dumped fields without `url`, the kind as
      its value, `password` only when not `None`, the extras, and finally `url` as `get_url()`. */
  function ReprAttributes(c: RedisConfig): (r: seq<(string, string)>)
    ensures |r| >= 5
    ensures r[0] == ("storage_type", Value(c.kind))
    ensures r[|r| - 1] == ("url", GetUrl(c))
  {
    [("storage_type", Value(c.kind)), ("host", c.host),
     ("port", Text.IntToString(c.port)), ("db", Text.IntToString(c.db))]
    + (if c.password.Some? then [("password", c.password.value)] else [])
    + c.extras
    + [("url", GetUrl(c))]
  }

  function RenderPairs(attributes: seq<(string, string)>): (r: seq<string>)
    ensures |r| == |attributes|
    ensures forall i :: 0 <= i < |r| ==> r[i] == attributes[i].0 + "=" + attributes[i].1
  {
    seq(|attributes|, i requires 0 <= i < |attributes| => attributes[i].0 + "=" + attributes[i].1)
  }

  /** `RedisConfig.__repr__`: opens with the kind rendered as its value and closes with the
      url `get_url` builds. */
  function Repr(c: RedisConfig): (r: string)
    ensures "RedisConfig(" + "storage_type=" + Value(c.kind) + ", " <= r
    ensures Text.EndsWith(r, ", " + "url=" + GetUrl(c) + ")")
  {
    var parts := RenderPairs(ReprAttributes(c));
    ReprOpens(c, parts);
    ReprCloses(c, parts);
    "RedisConfig(" + Text.Join(", ", parts) + ")"
  }

  /** The opening of the rendered attribute list, wrapped in the class name. */
  lemma ReprOpens(c: RedisConfig, parts: seq<string>)
    requires parts == RenderPairs(ReprAttributes(c))
    ensures "RedisConfig(" + "storage_type=" + Value(c.kind) + ", " <= "RedisConfig(" + Text.Join(", ", parts) + ")"
  {
    var first := "storage_type=" + Value(c.kind);
    assert parts[0] == first;
    Text.JoinEnds(", ", parts);
    Text.PrefixOfWrapped("RedisConfig(", first + ", ", Text.Join(", ", parts), ")");
    assert "RedisConfig(" + (first + ", ") == "RedisConfig(" + "storage_type=" + Value(c.kind) + ", ";
  }

  /** The closing of the rendered attribute list, wrapped in the class name. */
  lemma ReprCloses(c: RedisConfig, parts: seq<string>)
    requires parts == RenderPairs(ReprAttributes(c))
    ensures Text.EndsWith("RedisConfig(" + Text.Join(", ", parts) + ")", ", " + "url=" + GetUrl(c) + ")")
  {
    var last := "url=" + GetUrl(c);
    assert parts[|parts| - 1] == last;
    Text.JoinEnds(", ", parts);
    Text.SuffixOfWrapped("RedisConfig(", Text.Join(", ", parts), ", " + last, ")");
    assert (", " + last) + ")" == ", " + "url=" + GetUrl(c) + ")";
  }
}
