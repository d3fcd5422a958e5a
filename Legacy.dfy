/**
 * The earlier revision of the toolkit (the root `ThrowingLambdas.java`).
 *
 * Its stateless operations are the same expressions as the later revision's
 * under other names, so they are defined by the later ones and state their
 * promises afresh. Its scoped execution has a different shape: `process`
 * captures the body, `using` stores the input in a field, and `cleanup` runs
 * the body and then the `Garbage` (the same class as in the later revision).
 */
module LegacyThrowingLambdas {
  import opened Outcomes
  import opened Functional
  import TL = ThrowingLambdas

  /** `safeMapping(List, mapper)`: the present mapper results, in input order. */
  function SafeMapping<T(!new), R(!new)>(xs: seq<T>, mapper: T -> Option<R>): (r: seq<R>)
    ensures |r| <= |xs|
    ensures forall y :: y in r <==> exists x :: x in xs && mapper(x) == Some(y)
  {
    TL.SafeMapMembers(xs, mapper);
    TL.SafeMap(xs, mapper)
  }

  /**
   * `safeMapping(List, mapper)` keeps input order and duplicates: it maps a
   * concatenation piecewise, and when every mapper result is present it keeps
   * each one at its input's position.
   */
  lemma SafeMappingKeepsOrder<T(!new), R(!new)>(xs: seq<T>, ys: seq<T>, mapper: T -> Option<R>)
    ensures SafeMapping(xs + ys, mapper) == SafeMapping(xs, mapper) + SafeMapping(ys, mapper)
    ensures (forall i :: 0 <= i < |xs| ==> mapper(xs[i]).Some?) ==>
      |SafeMapping(xs, mapper)| == |xs| &&
      forall i :: 0 <= i < |xs| ==> SafeMapping(xs, mapper)[i] == mapper(xs[i]).value
  {
    TL.SafeMapAppend(xs, ys, mapper);
    if forall i :: 0 <= i < |xs| ==> mapper(xs[i]).Some? {
      TL.SafeMapAllPresent(xs, mapper);
    }
  }

  /** `safeMapping(Set, mapper)`: the set of present mapper results. */
  function SafeMappingSet<T(!new), R(!new)>(s: set<T>, mapper: T -> Option<R>): (r: set<R>)
    ensures forall y :: y in r <==> exists x :: x in s && mapper(x) == Some(y)
  {
    TL.SafeMapSet(s, mapper)
  }

  /** `catchMe(f)`: present result when `f` returns non-null, empty when anything is thrown. */
  function CatchMe<T(!new), R(!new)>(f: ThrowingFunction<T, R>): (g: T -> Option<R>)
    ensures forall t :: g(t).Some? <==> f(t).Ok? && f(t).value.NonNull?
    ensures forall t :: g(t).Some? ==> f(t) == Ok(NonNull(g(t).value))
  {
    TL.ToOptional(f)
  }

  /** `silence(function)`: returns what `f` returns; rethrows a failure wrapped in a `RuntimeException`. */
  function Silence<T(!new), R(!new)>(f: ThrowingFunction<T, R>): (g: ThrowingFunction<T, R>)
    ensures forall t :: g(t).Ok? ==> g(t) == f(t)
    ensures forall t :: g(t).Fail? <==> f(t).Fail?
    ensures forall t :: g(t).Fail? ==> g(t).error == Wrapped(f(t).error)
  {
    TL.SilenceExceptions(f)
  }

  /**
   * `ConsumerFunctionAdapter.apply`: runs the wrapped consumer and returns
   * null; the consumer's failure propagates unchanged.
   */
  function ConsumerFunctionAdapter<T(!new), R(!new)>(c: ThrowingConsumer<T>): (g: ThrowingFunction<T, R>)
    ensures forall t :: g(t).Ok? <==> c(t).Ok?
    ensures forall t :: g(t).Ok? ==> g(t).value == Null
    ensures forall t :: g(t).Fail? ==> g(t).error == c(t).error
  {
    t =>
      match c(t)
      case Ok(_) => Ok(Null)
      case Fail(e) => Fail(e)
  }

  /** `silence(consumer)`: `silence` of the adapted consumer, its null result discarded. */
  function SilenceConsumer<T(!new)>(c: ThrowingConsumer<T>): (h: T -> Outcome<()>)
    ensures forall t :: c(t).Ok? ==> h(t) == Ok(())
    ensures forall t :: c(t).Fail? ==> h(t) == Fail(Wrapped(c(t).error))
  {
    var silenced := Silence(ConsumerFunctionAdapter<T, ()>(c));
    t =>
      match silenced(t)
      case Ok(_) => Ok(())
      case Fail(e) => Fail(e)
  }

  /** The body of the earlier revision sees the field `t`, which is null until `using` sets it. */
  type LegacyConsumer<!T, !X> = TL.GarbageThrowingConsumer<Nullable<T>, X>

  /** `TryFinally` of the earlier revision: body, stored input and registry. */
  class TryFinally<T, X> {
    const throwingConsumer: LegacyConsumer<T, X>
    var t: Nullable<T>
    const garbage: TL.Garbage<X>

    constructor (throwingConsumer: LegacyConsumer<T, X>)
      ensures this.throwingConsumer == throwingConsumer && t == Null
      ensures fresh(garbage) && garbage.actions == []
    {
      this.throwingConsumer := throwingConsumer;
      this.t := Null;
      this.garbage := new TL.Garbage();
    }

    /** `using(t)`: stores the input and returns this same scope; the body does not run. */
    method Using(t: T) returns (self: TryFinally<T, X>)
      modifies this
      ensures self == this && this.t == NonNull(t)
      ensures garbage.actions == old(garbage.actions)
    {
      this.t := NonNull(t);
      self := this;
    }

    /**
     * `cleanup()`: runs the body on the stored input, ignores what it throws,
     * and drains the registry; only a disposer's failure escapes.
     */
    method Cleanup() returns (report: TL.Report<X>)
      modifies garbage
      ensures garbage.actions == old(garbage.actions) + TL.RunBody(throwingConsumer(t)).registered
      ensures report == TL.Drain(garbage.actions)
    {
      var ignored := TL.Accept(garbage, throwingConsumer(t));
      report := garbage.Cleanup();
    }
  }

  /** `process(consumer)`: a scope over a fresh, empty registry with no input yet. */
  method Process<T, X>(consumer: LegacyConsumer<T, X>) returns (scope: TryFinally<T, X>)
    ensures fresh(scope) && fresh(scope.garbage)
    ensures scope.throwingConsumer == consumer && scope.t == Null && scope.garbage.actions == []
  {
    scope := new TryFinally(consumer);
  }

  /** `System.out::println` as a disposer: it returns normally (its output is not modelled). */
  function Println(x: int): Outcome<()> {
    Ok(())
  }

  /**
   * The body of `main`: registers 5, throws an `IOException` when `0.5 > num`,
   * and otherwise registers 6. Comparing a null `Double` unboxes it and
   * throws a null-pointer failure.
   */
  function DemoBody(num: Nullable<real>): (steps: seq<TL.Step<int>>)
    ensures |steps| == 2 && steps[0] == TL.Register(5, Println)
    ensures steps[1].Throw? <==> num.Null? || 0.5 > num.value
    ensures num.Null? ==> steps[1].failure == NullPointer
    ensures steps[1].Register? ==> steps[1] == TL.Register(6, Println)
  {
    [TL.Register(5, Println)] +
    match num
    case Null => [TL.Throw(NullPointer)]
    case NonNull(n) =>
      if 0.5 > n then [TL.Throw(Raised("java.io.IOException"))] else [TL.Register(6, Println)]
  }

  /**
   * `process(body).using(num).cleanup()`: below 0.5 the disposer of 5 alone
   * runs, once, and the body's exception does not escape; otherwise the
   * disposers of 5 and 6 run in that order.
   */
  method Demo(num: real) returns (report: TL.Report<int>)
    ensures num < 0.5 ==> report == TL.Report([TL.Action(5, Println)], None)
    ensures num >= 0.5 ==> report == TL.Report([TL.Action(5, Println), TL.Action(6, Println)], None)
  {
    var scope := Process(DemoBody);
    scope := scope.Using(num);
    report := scope.Cleanup();
    DemoRegistrations(num);
    TL.DrainAllSucceed(TL.RunBody(DemoBody(NonNull(num))).registered);
  }

  /** What the body of `main` registers before it throws or returns. */
  lemma DemoRegistrations(num: real)
    ensures num < 0.5 ==> TL.RunBody(DemoBody(NonNull(num))).registered == [TL.Action(5, Println)]
    ensures num >= 0.5 ==>
      TL.RunBody(DemoBody(NonNull(num))).registered == [TL.Action(5, Println), TL.Action(6, Println)]
  {
  }

  /** `main`: the demo on 0.0, where 6 is never registered and nothing escapes. */
  method RunMain() returns (report: TL.Report<int>)
    ensures report.invoked == [TL.Action(5, Println)] && report.failure == None
  {
    report := Demo(0.0);
  }
}
