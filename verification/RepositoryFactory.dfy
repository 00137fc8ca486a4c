/** Choosing and constructing the repository from a storage configuration (repository/factory.py). */
module RepositoryFactory {
  import opened Wrappers
  import opened Errors
  import opened StorageType
  import opened Storage
  import Singleton

  /** The concrete repository classes. */
  datatype RepositoryClass = LocalRepositoryClass | RedisRepositoryClass

  /** A constructed repository: its class and the configuration it was first built with. */
  datatype Repository = Repository(cls: RepositoryClass, config: StorageConfig)

  /** `SingletonABCMeta._instances`, restricted to the repository classes. */
  type Registry = map<RepositoryClass, Repository>

  /** Every registered instance sits under its own class. */
  predicate WellFormed(registry: Registry)
  {
    forall c :: c in registry ==> registry[c].cls == c
  }

  const NoGetUrl: string := "'StorageConfig' object has no attribute 'get_url'"
  const SchemeRequired: string := "Redis URL must specify one of the following schemes (redis://, rediss://, unix://)"

  /** The client library accepts a connection url only under one of its three schemes,
      matched case-sensitively at the very start. */
  predicate HasRedisScheme(url: string) {
    "redis://" <= url || "rediss://" <= url || "unix://" <= url
  }

  /** Running a class's `__init__`. The in-memory store keeps the configuration; the Redis
      store asks it for `get_url()`, which only a `RedisConfig` has, and hands the url to the
      client, which refuses one without a Redis scheme. */
  function Build(cls: RepositoryClass, config: StorageConfig): (r: Result<Repository, Error>)
    ensures r.Ok? ==> r.value == Repository(cls, config)
    ensures cls == LocalRepositoryClass ==> r.Ok?
    ensures r.Err? <==> cls == RedisRepositoryClass && (config.Basic? || !HasRedisScheme(GetUrl(config.redis)))
    ensures cls == RedisRepositoryClass && config.Basic? ==> r == Err(AttributeErr(NoGetUrl))
    ensures cls == RedisRepositoryClass && config.RedisSettings? && !HasRedisScheme(GetUrl(config.redis)) ==>
              r == Err(ValueErr(SchemeRequired))
  {
    match cls
    case LocalRepositoryClass => Ok(Repository(cls, config))
    case RedisRepositoryClass =>
      if config.Basic? then Err(AttributeErr(NoGetUrl))
      else if !HasRedisScheme(GetUrl(config.redis)) then Err(ValueErr(SchemeRequired))
      else Ok(Repository(cls, config))
  }

  /** A url the configuration builds from its fields always carries the plain Redis scheme,
      so it passes the client's scheme check; only an explicit url can fail that check. */
  lemma BuiltUrlIsAccepted(c: RedisConfig)
    requires !Given(c.url)
    ensures Build(RedisRepositoryClass, RedisSettings(c)) == Ok(Repository(RedisRepositoryClass, RedisSettings(c)))
  {
    BuiltUrlShape(c);
  }

  /** An explicit url under another scheme, or with the scheme in capitals, is refused. */
  lemma ForeignSchemeIsRefused(c: RedisConfig)
    requires c.url == Some("http://localhost:6379/0") || c.url == Some("REDIS://localhost:6379/0")
    ensures Build(RedisRepositoryClass, RedisSettings(c)) == Err(ValueErr(SchemeRequired))
  {
    assert GetUrl(c) == c.url.value;
    assert GetUrl(c)[0] !in {'r', 'u'};
  }

  /** The class each kind selects. */
  function ClassFor(kind: StorageKind): (r: RepositoryClass)
    ensures kind == Memory <==> r == LocalRepositoryClass
  {
    match kind
    case Redis => RedisRepositoryClass
    case Memory => LocalRepositoryClass
  }

  /** `RepositoryFactory.create`: dispatch on the kind, construct through the singleton registry.
      The kind is a closed enumeration, so the source's unknown-kind branch cannot be reached. */
  function Create(registry: Registry, config: StorageConfig): (r: Step<Registry, Result<Repository, Error>>)
    requires WellFormed(registry)
    ensures WellFormed(r.state)
    ensures r.out.Ok? ==> r.out.value.cls == ClassFor(KindOf(config))
    ensures KindOf(config) == Memory ==> r.out.Ok?
    ensures r.out.Err? <==> KindOf(config) == Redis && RedisRepositoryClass !in registry
                            && (config.Basic? || !HasRedisScheme(GetUrl(config.redis)))
    ensures r.out.Err? ==> r.state == registry && r.out == Build(RedisRepositoryClass, config)
    ensures registry.Keys <= r.state.Keys
    ensures forall c :: c in registry ==> r.state[c] == registry[c]
  {
    var cls := ClassFor(KindOf(config));
    Singleton.Call(registry, cls, Build(cls, config))
  }

  /** The class chosen depends on the kind alone: extra fields and connection details do not matter. */
  lemma SelectionIgnoresOtherFields(registry: Registry, a: StorageConfig, b: StorageConfig)
    requires WellFormed(registry)
    requires KindOf(a) == KindOf(b)
    requires Create(registry, a).out.Ok? && Create(registry, b).out.Ok?
    ensures Create(registry, a).out.value.cls == Create(registry, b).out.value.cls
  {
  }

  /** Creating the in-memory repository twice yields one instance, built from the first configuration. */
  lemma MemoryRepositoryIsShared(registry: Registry, first: StorageConfig, second: StorageConfig)
    requires KindOf(first) == Memory && KindOf(second) == Memory
    requires WellFormed(registry)
    requires LocalRepositoryClass !in registry
    ensures var r1 := Create(registry, first);
            var r2 := Create(r1.state, second);
            WellFormed(r1.state) &&
            r1.out == Ok(Repository(LocalRepositoryClass, first)) && r2.out == r1.out && r2.state == r1.state
  {
  }
}
