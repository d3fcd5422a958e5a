/**
 * The toolkit's static operations: safe-mapping over collections, adapters
 * from fallible functions to total ones, and the scoped execution that
 * cleans up the garbage its body registers.
 */
module ThrowingLambdas {
  import opened Outcomes
  import opened Functional

  // ---------------------------------------------------------------------------
  // safeMap
  // ---------------------------------------------------------------------------

  /**
   * `safeMap(List, mapper)`: the stream map → filter(isPresent) → map(get)
   * collected to a list. Keeps the present results, in input order.
   */
  function SafeMap<T(!new), R(!new)>(xs: seq<T>, mapper: T -> Option<R>): (r: seq<R>)
    ensures |r| <= |xs|
  {
    if xs == [] then []
    else
      var rest := SafeMap(xs[1..], mapper);
      match mapper(xs[0])
      case Some(y) => [y] + rest
      case None => rest
  }

  /** The result holds exactly the present results of the input's elements. */
  lemma {:induction false} SafeMapMembers<T(!new), R(!new)>(xs: seq<T>, mapper: T -> Option<R>)
    ensures forall y :: y in SafeMap(xs, mapper) <==> exists x :: x in xs && mapper(x) == Some(y)
  {
    if xs != [] {
      SafeMapMembers(xs[1..], mapper);
      assert forall x :: x in xs <==> x == xs[0] || x in xs[1..];
    }
  }

  /** Safe-mapping a concatenation concatenates the results: input order is kept. */
  lemma {:induction false} SafeMapAppend<T(!new), R(!new)>(xs: seq<T>, ys: seq<T>, mapper: T -> Option<R>)
    ensures SafeMap(xs + ys, mapper) == SafeMap(xs, mapper) + SafeMap(ys, mapper)
  {
    if xs != [] {
      assert (xs + ys)[0] == xs[0] && (xs + ys)[1..] == xs[1..] + ys;
      SafeMapAppend(xs[1..], ys, mapper);
      if mapper(xs[0]).Some? {
        var y := mapper(xs[0]).value;
        calc {
          SafeMap(xs + ys, mapper);
          [y] + SafeMap(xs[1..] + ys, mapper);
          [y] + (SafeMap(xs[1..], mapper) + SafeMap(ys, mapper));
          ([y] + SafeMap(xs[1..], mapper)) + SafeMap(ys, mapper);
          SafeMap(xs, mapper) + SafeMap(ys, mapper);
        }
      }
    } else {
      assert xs + ys == ys;
    }
  }

  /** An element contributes its present result, or nothing when the mapper returns empty. */
  lemma SafeMapSingleton<T(!new), R(!new)>(x: T, mapper: T -> Option<R>)
    ensures SafeMap([x], mapper) == if mapper(x).Some? then [mapper(x).value] else []
  {
  }

  /**
   * When the mapper is present everywhere nothing is dropped: the result has
   * the input's length and holds each element's result at the element's position.
   */
  lemma {:induction false} SafeMapAllPresent<T(!new), R(!new)>(xs: seq<T>, mapper: T -> Option<R>)
    requires forall i :: 0 <= i < |xs| ==> mapper(xs[i]).Some?
    ensures |SafeMap(xs, mapper)| == |xs|
    ensures forall i :: 0 <= i < |xs| ==> SafeMap(xs, mapper)[i] == mapper(xs[i]).value
  {
    if xs != [] {
      SafeMapAllPresent(xs[1..], mapper);
    }
  }

  /**
   * `safeMap(Set, mapper)`: the same stream collected to a set. Holds exactly
   * the present results of the set's elements.
   */
  function SafeMapSet<T(!new), R(!new)>(s: set<T>, mapper: T -> Option<R>): (r: set<R>)
    ensures forall y :: y in r <==> exists x :: x in s && mapper(x) == Some(y)
  {
    set x | x in s && mapper(x).Some? :: mapper(x).value
  }

  /**
   * The set overload is the list pipeline collected to a set, whichever
   * order the set's stream visits the elements in.
   */
  lemma SafeMapSetCollectsStream<T(!new), R(!new)>(xs: seq<T>, s: set<T>, mapper: T -> Option<R>)
    requires forall x :: x in s <==> x in xs
    ensures SafeMapSet(s, mapper) == set y | y in SafeMap(xs, mapper)
  {
    SafeMapMembers(xs, mapper);
  }

  /** The set result is no larger than the input set. */
  lemma {:induction false} SafeMapSetNoLarger<T(!new), R(!new)>(s: set<T>, mapper: T -> Option<R>)
    ensures |SafeMapSet(s, mapper)| <= |s|
    decreases s
  {
    if s != {} {
      var x :| x in s;
      var s' := s - {x};
      SafeMapSetNoLarger(s', mapper);
      if mapper(x).Some? {
        assert SafeMapSet(s, mapper) == SafeMapSet(s', mapper) + {mapper(x).value};
      } else {
        assert SafeMapSet(s, mapper) == SafeMapSet(s', mapper);
      }
    }
  }

  /** The documented example: keeping the even numbers of [1, 2, 3, 4] and of {1, 2, 3, 4}. */
  lemma SafeMapEvens()
    ensures SafeMap([1, 2, 3, 4], (x: int) => if x % 2 == 0 then Some(x) else None) == [2, 4]
    ensures SafeMapSet({1, 2, 3, 4}, (x: int) => if x % 2 == 0 then Some(x) else None) == {2, 4}
  {
  }

  // ---------------------------------------------------------------------------
  // Adapters
  // ---------------------------------------------------------------------------

  /** `Optional.of(v)`: throws on null. */
  function OptionalOf<R>(v: Nullable<R>): Outcome<Option<R>> {
    match v
    case Null => Fail(NullPointer)
    case NonNull(x) => Ok(Some(x))
  }

  /**
   * `toOptional(f)`: the total function that runs `f` and returns its result
   * as present, and empty when anything is thrown (including the null-pointer
   * failure of wrapping a null result).
   */
  function ToOptional<T(!new), R(!new)>(f: ThrowingFunction<T, R>): (g: T -> Option<R>)
    ensures forall t :: g(t).Some? <==> f(t).Ok? && f(t).value.NonNull?
    ensures forall t :: g(t).Some? ==> f(t) == Ok(NonNull(g(t).value))
  {
    t =>
      var attempt := match f(t) case Ok(v) => OptionalOf(v) case Fail(e) => Fail(e);
      match attempt
      case Ok(o) => o
      case Fail(_) => None
  }

  /**
   * `toEither(f)`: the total function that runs `f` and returns its result on
   * the right, and the thrown failure on the left.
   */
  function ToEither<T(!new), R(!new)>(f: ThrowingFunction<T, R>): (g: T -> Either<Failure, R>)
    ensures forall t :: g(t).Valid()
    ensures forall t :: g(t).IsRight() <==> f(t).Ok? && f(t).value.NonNull?
    ensures forall t :: g(t).IsRight() ==> f(t) == Ok(NonNull(g(t).GetRight().value))
    ensures forall t :: f(t).Fail? ==> g(t).GetLeft() == Ok(f(t).error)
    ensures forall t :: f(t) == Ok(Null) ==> g(t).GetLeft() == Ok(NullPointer)
  {
    t =>
      var attempt := match f(t) case Ok(v) => Either<Failure, R>.Right(v) case Fail(e) => Fail(e);
      match attempt
      case Ok(e) => e
      case Fail(exception) => Either<Failure, R>.Left(NonNull(exception)).value
  }

  /**
   * `silenceExceptions(function)`: returns what `f` returns, and on failure
   * throws a `RuntimeException` whose cause is the original failure.
   */
  function SilenceExceptions<T(!new), R(!new)>(f: ThrowingFunction<T, R>): (g: ThrowingFunction<T, R>)
    ensures forall t :: g(t).Ok? ==> g(t) == f(t)
    ensures forall t :: g(t).Fail? <==> f(t).Fail?
    ensures forall t :: g(t).Fail? ==> g(t).error == Wrapped(f(t).error)
  {
    t =>
      match f(t)
      case Ok(v) => Ok(v)
      case Fail(e) => Fail(Wrapped(e))
  }

  /**
   * `toThrowingFunction(consumer)`: runs the consumer and returns null, or
   * throws what the consumer throws.
   */
  function ToThrowingFunction<T(!new)>(c: ThrowingConsumer<T>): (g: ThrowingFunction<T, ()>)
    ensures forall t :: g(t).Ok? <==> c(t).Ok?
    ensures forall t :: g(t).Ok? ==> g(t).value == Null
    ensures forall t :: g(t).Fail? ==> g(t).error == c(t).error
  {
    t =>
      match c(t)
      case Ok(_) => Ok(Null)
      case Fail(e) => Fail(e)
  }

  /**
   * `silenceExceptions(consumer)`: the function form applied to
   * `toThrowingFunction(consumer)`, its null result discarded.
   */
  function SilenceConsumerExceptions<T(!new)>(c: ThrowingConsumer<T>): (h: T -> Outcome<()>)
    ensures forall t :: c(t).Ok? ==> h(t) == Ok(())
    ensures forall t :: c(t).Fail? ==> h(t) == Fail(Wrapped(c(t).error))
  {
    var silenced := SilenceExceptions(ToThrowingFunction(c));
    t =>
      match silenced(t)
      case Ok(_) => Ok(())
      case Fail(e) => Fail(e)
  }

  /** `toOptional` and `toEither` agree: present exactly when right, with the same value. */
  lemma ToOptionalAgreesWithToEither<T(!new), R(!new)>(f: ThrowingFunction<T, R>, t: T)
    ensures ToOptional(f)(t).Some? <==> ToEither(f)(t).IsRight()
    ensures ToOptional(f)(t).Some? ==> ToEither(f)(t).GetRight() == Ok(ToOptional(f)(t).value)
  {
  }

  /**
   * Silencing does not swallow: catching a silenced function yields exactly
   * what catching the original yields.
   */
  lemma SilencedStillFails<T(!new), R(!new)>(f: ThrowingFunction<T, R>, t: T)
    ensures ToOptional(SilenceExceptions(f))(t) == ToOptional(f)(t)
    ensures SilenceExceptions(f)(t).Fail? ==> SilenceExceptions(f)(t).error.cause == f(t).error
  {
  }

  /** The intended use: safe-mapping with `toOptional(f)` keeps exactly the successful non-null results. */
  lemma SafeMapOfToOptional<T(!new), R(!new)>(xs: seq<T>, f: ThrowingFunction<T, R>)
    ensures forall y :: y in SafeMap(xs, ToOptional(f)) <==> exists x :: x in xs && f(x) == Ok(NonNull(y))
  {
  }

  // ---------------------------------------------------------------------------
  // Garbage
  // ---------------------------------------------------------------------------

  /**
   * One registration: a resource and the `Consumer` that disposes of it.
   * Invoking it is `disposer.accept(resource)`, which may throw.
   */
  datatype Action<!X> = Action(resource: X, disposer: X -> Outcome<()>)

  /** The `Statement` a registration was erased to, run. */
  function Invoke<X>(a: Action<X>): Outcome<()> {
    a.disposer(a.resource)
  }

  /**
   * What a cleanup did: the actions it invoked, in order, and the failure
   * that escaped it, if any.
   */
  datatype Report<!X> = Report(invoked: seq<Action<X>>, failure: Option<Failure>)

  /**
   * `garbages.forEach(Statement::apply)`: invokes the actions in registration
   * order, each at most once, and stops at the first one that throws, whose
   * failure escapes.
   */
  function Drain<X>(actions: seq<Action<X>>): (r: Report<X>)
    ensures |r.invoked| <= |actions| && r.invoked == actions[..|r.invoked|]
    ensures forall i :: 0 <= i < |r.invoked| - 1 ==> Invoke(r.invoked[i]).Ok?
    ensures r.failure.None? ==> r.invoked == actions && forall i :: 0 <= i < |actions| ==> Invoke(actions[i]).Ok?
    ensures r.failure.Some? ==> r.invoked != [] && Invoke(r.invoked[|r.invoked| - 1]) == Fail(r.failure.value)
  {
    if actions == [] then Report([], None)
    else
      match Invoke(actions[0])
      case Fail(e) => Report([actions[0]], Some(e))
      case Ok(_) =>
        var rest := Drain(actions[1..]);
        Report([actions[0]] + rest.invoked, rest.failure)
  }

  /** Registering nothing makes cleanup a no-op. */
  lemma DrainNothing<X>()
    ensures Drain<X>([]) == Report([], None)
  {
  }

  /** When every disposer returns normally, all of them run, once each, in order, and nothing escapes. */
  lemma DrainAllSucceed<X>(actions: seq<Action<X>>)
    requires forall i :: 0 <= i < |actions| ==> Invoke(actions[i]).Ok?
    ensures Drain(actions) == Report(actions, None)
  {
  }

  /**
   * The first disposer that throws ends the cleanup: those before it ran,
   * those after it never run, and its failure escapes.
   */
  lemma DrainStopsAtFirstFailure<X>(actions: seq<Action<X>>, k: nat)
    requires k < |actions| && Invoke(actions[k]).Fail?
    requires forall i :: 0 <= i < k ==> Invoke(actions[i]).Ok?
    ensures Drain(actions) == Report(actions[..k + 1], Some(Invoke(actions[k]).error))
  {
  }

  /** `Garbage`: the ordered list of deferred disposals of one scoped execution. */
  class Garbage<X> {
    var actions: seq<Action<X>>

    constructor ()
      ensures actions == []
    {
      actions := [];
    }

    /** `add(t, consumer)`: appends one registration; no disposer runs. */
    method Add(resource: X, disposer: X -> Outcome<()>)
      modifies this
      ensures actions == old(actions) + [Action(resource, disposer)]
      ensures Invoke(actions[|actions| - 1]) == disposer(resource)
    {
      actions := actions + [Action(resource, disposer)];
    }

    /**
     * `cleanup()`: runs the registrations in order until one throws. The
     * list is left as it is.
     */
    method Cleanup() returns (report: Report<X>)
      ensures report == Drain(actions)
    {
      var invoked: seq<Action<X>> := [];
      var i := 0;
      while i < |actions|
        invariant 0 <= i <= |actions|
        invariant invoked == actions[..i]
        invariant forall j :: 0 <= j < i ==> Invoke(actions[j]).Ok?
      {
        var a := actions[i];
        invoked := invoked + [a];
        var result := a.disposer(a.resource);
        if result.Fail? {
          DrainStopsAtFirstFailure(actions, i);
          return Report(invoked, Some(result.error));
        }
        i := i + 1;
      }
      DrainAllSucceed(actions);
      report := Report(invoked, None);
    }
  }

  // ---------------------------------------------------------------------------
  // TryFinally
  // ---------------------------------------------------------------------------

  /**
   * What a `GarbageThrowingConsumer` body does with the registry: register a
   * resource with its disposer, or throw (which ends the body).
   */
  datatype Step<!X> = Register(resource: X, disposer: X -> Outcome<()>) | Throw(failure: Failure)

  /** `GarbageThrowingConsumer<T, E>`: for each input, the steps the body takes. */
  type GarbageThrowingConsumer<-T, !X> = T -> seq<Step<X>>

  /** What one run of a body did: the registrations it made, and what it threw, if anything. */
  datatype BodyRun<!X> = BodyRun(registered: seq<Action<X>>, thrown: Option<Failure>)

  /** A body's run: its registrations up to its first throw. */
  function RunBody<X>(steps: seq<Step<X>>): (b: BodyRun<X>)
    ensures |b.registered| <= |steps|
    ensures forall k :: 0 <= k < |b.registered| ==>
      steps[k] == Register(b.registered[k].resource, b.registered[k].disposer)
    ensures b.thrown.None? <==> |b.registered| == |steps|
    ensures b.thrown.Some? ==> steps[|b.registered|] == Throw(b.thrown.value)
  {
    if steps == [] then BodyRun([], None)
    else
      match steps[0]
      case Throw(e) => BodyRun([], Some(e))
      case Register(x, d) =>
        var rest := RunBody(steps[1..]);
        BodyRun([Action(x, d)] + rest.registered, rest.thrown)
  }

  /**
   * `consumer.accept(garbage, t)`: performs the body's registrations on the
   * registry and returns normally, or throws what the body throws.
   */
  method Accept<X>(garbage: Garbage<X>, steps: seq<Step<X>>) returns (outcome: Outcome<()>)
    modifies garbage
    ensures garbage.actions == old(garbage.actions) + RunBody(steps).registered
    ensures outcome.Fail? <==> RunBody(steps).thrown.Some?
    ensures outcome.Fail? ==> outcome.error == RunBody(steps).thrown.value
  {
    ghost var registered := RunBody(steps).registered;
    var i := 0;
    while i < |steps| && steps[i].Register?
      invariant 0 <= i <= |registered|
      invariant garbage.actions == old(garbage.actions) + registered[..i]
    {
      garbage.Add(steps[i].resource, steps[i].disposer);
      assert registered[..i + 1] == registered[..i] + [registered[i]];
      i := i + 1;
    }
    assert registered[..i] == registered;
    if i < |steps| {
      outcome := Fail(steps[i].failure);
    } else {
      outcome := Ok(());
    }
  }

  /** The report of a fresh scope whose body takes `steps`: its registry drained after the body. */
  function ScopeReport<X>(steps: seq<Step<X>>): Report<X> {
    Drain(RunBody(steps).registered)
  }

  /**
   * The body's failure is discarded: a body that throws after some
   * registrations leaves exactly the report of the body that makes the same
   * registrations and returns normally.
   */
  lemma ScopeDiscardsBodyFailure<X>(steps: seq<Step<X>>)
    ensures RunBody(steps[..|RunBody(steps).registered|]) == BodyRun(RunBody(steps).registered, None)
    ensures ScopeReport(steps) == ScopeReport(steps[..|RunBody(steps).registered|])
  {
  }

  /**
   * When no registered disposer throws, every disposer the body registered
   * before it threw (or returned) is invoked, once, in registration order,
   * and nothing reaches the caller, whatever the body threw.
   */
  lemma ScopeInvokesEveryRegistration<X>(steps: seq<Step<X>>)
    requires forall i :: 0 <= i < |RunBody(steps).registered| ==> Invoke(RunBody(steps).registered[i]).Ok?
    ensures ScopeReport(steps) == Report(RunBody(steps).registered, None)
  {
  }

  /** Only a cleanup failure escapes: it is the failure of a registered disposer, never the body's. */
  lemma ScopeFailureComesFromCleanup<X>(steps: seq<Step<X>>)
    ensures ScopeReport(steps).failure.Some? ==>
      exists k :: 0 <= k < |RunBody(steps).registered| &&
        Invoke(RunBody(steps).registered[k]) == Fail(ScopeReport(steps).failure.value)
  {
  }

  /**
   * `TryFinally`: the captured body and the registry it fills. `With` runs
   * the body, ignores its failure, and always cleans up.
   */
  class TryFinally<T, X> {
    const throwingConsumer: GarbageThrowingConsumer<T, X>
    const garbage: Garbage<X>

    constructor (throwingConsumer: GarbageThrowingConsumer<T, X>)
      ensures this.throwingConsumer == throwingConsumer
      ensures fresh(garbage) && garbage.actions == []
    {
      this.throwingConsumer := throwingConsumer;
      this.garbage := new Garbage();
    }

    /**
     * `with(t)`: the body's registrations are appended to the registry, and
     * the whole registry is then drained. The report's failure is the only
     * one reaching the caller. The registry is not reset: a second call
     * drains the first call's registrations again.
     */
    method With(t: T) returns (report: Report<X>)
      modifies garbage
      ensures garbage.actions == old(garbage.actions) + RunBody(throwingConsumer(t)).registered
      ensures report == Drain(garbage.actions)
    {
      var ignored := Accept(garbage, throwingConsumer(t));
      report := garbage.Cleanup();
    }
  }

  /** `using(consumer)`: a scope over a fresh, empty registry; nothing runs yet. */
  method Using<T, X>(consumer: GarbageThrowingConsumer<T, X>) returns (scope: TryFinally<T, X>)
    ensures fresh(scope) && fresh(scope.garbage)
    ensures scope.throwingConsumer == consumer && scope.garbage.actions == []
  {
    scope := new TryFinally(consumer);
  }

  /** `using(consumer).with(t)`: the report is the scope report of the body's run on `t`. */
  method UsingWith<T, X>(consumer: GarbageThrowingConsumer<T, X>, t: T) returns (report: Report<X>)
    ensures report == ScopeReport(consumer(t))
  {
    var scope := Using(consumer);
    report := scope.With(t);
    assert scope.garbage.actions == RunBody(consumer(t)).registered;
  }
}
