/**
 * The dependency-injection container (`Container`). Tokens name services;
 * each token maps to how an instance is made. A token registered as a
 * singleton is also marked in a second map whose entry is empty until the
 * first resolve stores the instance there.
 *
 * An instance is an object a constructor built (told apart by the build
 * number, so two builds are two objects), or whatever a factory returns,
 * which may be a falsy value.
 */
module DependencyInjection {
  import opened Wrappers

  datatype Instance = Object(origin: string, build: nat) | Falsy

  predicate IsTruthy(i: Instance) {
    i.Object?
  }

  /** A class to construct with `new`, or a factory to call; `make` is told the build number. */
  datatype Implementation = Constructor(className: string) | Factory(make: nat -> Instance)

  /** The container's two maps, and the number of instances built so far. */
  datatype State = State(services: map<string, Implementation>, singletons: map<string, Option<Instance>>, builds: nat)

  /** Every singleton mark belongs to a registered service. */
  predicate Consistent(s: State) {
    s.singletons.Keys <= s.services.Keys
  }

  function NotFound(token: string): string {
    "Service " + token + " not found"
  }

  /** `new implementation()` or `implementation()`, as build number `n`. */
  function Build(impl: Implementation, n: nat): Instance {
    match impl
    case Constructor(name) => Object(name, n)
    case Factory(make) => make(n)
  }

  /** `register(token, impl)`. */
  function WithService(s: State, token: string, impl: Implementation): State {
    s.(services := s.services[token := impl])
  }

  /** `registerSingleton(token, impl)`: registers and marks the token, dropping any cached instance. */
  function WithSingleton(s: State, token: string, impl: Implementation): State {
    s.(services := s.services[token := impl], singletons := s.singletons[token := None])
  }

  /** `resolve(token)`: its result (an error for a throw) and the container after it. */
  function ResolveStep(s: State, token: string): (Result<Instance, string>, State) {
    if token in s.singletons && s.singletons[token].Some? && IsTruthy(s.singletons[token].value) then
      (Ok(s.singletons[token].value), s)
    else if token !in s.services then
      (Err(NotFound(token)), s)
    else
      var instance := Build(s.services[token], s.builds);
      var singletons := if token in s.singletons then s.singletons[token := Some(instance)] else s.singletons;
      (Ok(instance), State(s.services, singletons, s.builds + 1))
  }

  /** Registering keeps every singleton mark backed by a service. */
  lemma RegistrationKeepsConsistent(s: State, token: string, impl: Implementation)
    requires Consistent(s)
    ensures Consistent(WithService(s, token, impl)) && Consistent(WithSingleton(s, token, impl))
    ensures WithService(s, token, impl).singletons == s.singletons
    ensures WithSingleton(s, token, impl).singletons[token] == None
  {
  }

  /**
   * Resolving never changes the registry, keeps the container consistent,
   * and fails exactly for a token with neither a service nor a cached
   * instance, with the message `Service {token} not found`.
   */
  lemma ResolveKeepsRegistry(s: State, token: string)
    requires Consistent(s)
    ensures var (r, t) := ResolveStep(s, token);
            t.services == s.services && Consistent(t) &&
            (r.Err? <==> token !in s.services) &&
            (r.Err? ==> r.error == NotFound(token) && t == s)
  {
  }

  /**
   * A singleton whose first resolve yields an object keeps yielding that same
   * object without building again, however often it is resolved.
   */
  lemma {:induction false} SingletonBuiltOnce(s: State, token: string, n: nat)
    requires token in s.singletons
    requires ResolveStep(s, token).0.Ok? && IsTruthy(ResolveStep(s, token).0.value)
    ensures var (r, t) := ResolveStep(s, token);
            ResolveTimes(t, token, n) == (r, t)
  {
    var (r, t) := ResolveStep(s, token);
    assert t.singletons[token] == Some(r.value);
    if n > 0 {
      SingletonBuiltOnce(s, token, n - 1);
    }
  }

  /** Resolving the same token `n` more times; the last result and the final container. */
  function ResolveTimes(s: State, token: string, n: nat): (Result<Instance, string>, State)
    decreases n
  {
    if n == 0 then ResolveStep(s, token)
    else ResolveTimes(ResolveStep(s, token).1, token, n - 1)
  }

  /**
   * A token registered without the singleton mark is built anew on every
   * resolve, each time with a new build number, and nothing is cached. A
   * constructor therefore gives two different objects; a factory is called
   * twice, and may return the same value both times.
   */
  lemma TransientBuiltEveryTime(s: State, token: string)
    requires token in s.services && token !in s.singletons
    ensures var impl := s.services[token];
            var (r1, t1) := ResolveStep(s, token);
            var (r2, t2) := ResolveStep(t1, token);
            r1 == Ok(Build(impl, s.builds)) && r2 == Ok(Build(impl, s.builds + 1)) &&
            t2.singletons == s.singletons && t2.builds == s.builds + 2 &&
            (impl.Constructor? ==> r1 == Ok(Object(impl.className, s.builds)) && r1 != r2)
  {
  }

  /**
   * A singleton whose factory returns a falsy value is not memoised: the
   * cached value fails the `if (existing)` test, so every resolve calls the
   * factory again.
   */
  lemma FalsySingletonRebuilt(s: State, token: string, make: nat -> Instance)
    requires token in s.services && token in s.singletons && s.singletons[token] == None
    requires s.services[token] == Factory(make)
    requires forall n :: make(n) == Falsy
    ensures var (r1, t1) := ResolveStep(s, token);
            var (r2, t2) := ResolveStep(t1, token);
            r1 == Ok(Falsy) && r2 == Ok(Falsy) && t2.builds == s.builds + 2
  {
    var (r1, t1) := ResolveStep(s, token);
    assert make(s.builds) == Falsy && make(s.builds + 1) == Falsy;
    assert t1.singletons[token] == Some(Falsy);
  }

  class Container {
    var services: map<string, Implementation>
    var singletons: map<string, Option<Instance>>
    var builds: nat

    function Snapshot(): State
      reads this
    {
      State(services, singletons, builds)
    }

    constructor ()
      ensures Snapshot() == State(map[], map[], 0)
    {
      services, singletons, builds := map[], map[], 0;
    }

    method Register(token: string, impl: Implementation)
      modifies this
      ensures Snapshot() == WithService(old(Snapshot()), token, impl)
    {
      services := services[token := impl];
    }

    method RegisterSingleton(token: string, impl: Implementation)
      modifies this
      ensures Snapshot() == WithSingleton(old(Snapshot()), token, impl)
    {
      services := services[token := impl];
      singletons := singletons[token := None];
    }

    method Resolve(token: string) returns (r: Result<Instance, string>)
      modifies this
      ensures (r, Snapshot()) == ResolveStep(old(Snapshot()), token)
    {
      if token in singletons {
        var existing := singletons[token];
        if existing.Some? && IsTruthy(existing.value) {
          return Ok(existing.value);
        }
      }
      if token !in services {
        return Err(NotFound(token));
      }
      var instance := Build(services[token], builds);
      builds := builds + 1;
      if token in singletons {
        singletons := singletons[token := Some(instance)];
      }
      r := Ok(instance);
    }
  }
}
