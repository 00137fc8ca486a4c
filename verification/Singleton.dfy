/** The per-class instance registry of `SingletonABCMeta` (repository/base.py). */
module Singleton {
  import opened Wrappers
  import opened Errors

  /** `SingletonABCMeta.__call__(cls, ...)`: the registered instance when `cls` has one;
      otherwise the outcome `build` of running the constructor, registered on success. */
  function Call<C, I>(registry: map<C, I>, cls: C, build: Result<I, Error>): (r: Step<map<C, I>, Result<I, Error>>)
    ensures cls in registry ==> r == Step(registry, Ok(registry[cls]))
    ensures cls !in registry && build.Ok? ==> r.out == build && r.state == registry[cls := build.value]
    ensures cls !in registry && build.Err? ==> r == Step(registry, build)
    ensures r.out.Ok? ==> cls in r.state && r.state[cls] == r.out.value
    ensures registry.Keys <= r.state.Keys
    ensures forall c :: c in registry ==> r.state[c] == registry[c]
    ensures r.state.Keys <= registry.Keys + {cls}
  {
    if cls in registry then Step(registry, Ok(registry[cls]))
    else if build.Ok? then Step(registry[cls := build.value], build)
    else Step(registry, build)
  }

  /** Once a class has an instance, every later construction returns it, whatever it is given. */
  lemma LaterCallsShareTheInstance<C, I>(registry: map<C, I>, cls: C, first: Result<I, Error>, second: Result<I, Error>)
    requires first.Ok?
    ensures var r1 := Call(registry, cls, first);
            var r2 := Call(r1.state, cls, second);
            r2.out == r1.out && r2.state == r1.state
  {
  }

  /** Constructing one class leaves every other class's entry as it was. */
  lemma ClassesAreIndependent<C, I>(registry: map<C, I>, cls: C, other: C, build: Result<I, Error>)
    requires other != cls
    ensures var r := Call(registry, cls, build);
            (other in r.state <==> other in registry) && (other in registry ==> r.state[other] == registry[other])
  {
  }
}
