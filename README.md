# throwingLambdas, modelled in Dafny

A model of a small Java failure-handling toolkit and the proofs of what it
promises. The toolkit has four parts:

- the immutable `Either` value;
- adapters that turn a fallible function into a total one (`toOptional`,
  `toEither`), or into one whose failure is rethrown wrapped in a
  `RuntimeException` (`silenceExceptions`);
- `safeMap`, which filter-maps a list or a set through a partial function;
- scoped execution (`using(body).with(t)`). The body registers disposers for
  the resources it creates in a `Garbage` registry. The scope swallows any
  failure of the body and then always runs the registered disposers, in
  registration order, until one of them throws.

Java exceptions are data here. A call returns `Outcome<R> = Ok(value) |
Fail(error)`. The failures the toolkit creates or distinguishes are
`Failure`'s cases: `Wrapped(cause)` for `new RuntimeException(cause)`,
`IllegalState` from `Either`'s getters, `NullPointer` from
`Objects.requireNonNull` and `Optional.of(null)`, and `Raised(kind)` for
anything caller code throws.

A reference that may be null is `Nullable<T>`. The results of caller-supplied
functions are nullable, which keeps a source edge case: `toOptional` and
`toEither` catch the null-pointer failure of wrapping a null result. The
first gives empty; the second gives `left(NullPointerException)`.
`toThrowingFunction` returns the literal null (`Ok(Null)`).

A body passed to `using` is modelled as a script, `T -> seq<Step<X>>`. Each
step is `Register(resource, disposer)` (a call of `garbage.add`) or
`Throw(failure)`. `Accept` performs the script on the registry up to its
first throw. A registration is an `Action(resource, disposer)`, and invoking
it is `disposer(resource)`. `Garbage.Cleanup` is a loop proved equal to the
specification function `Drain`. `Drain` returns the actions invoked and the
failure that escaped.

Modules follow the source files:
- `Outcomes.dfy`: exceptions, `Optional`, null.
- `Functional.dfy`: the `throwinglambdas.functional` package, that is, the
  fallible-function types and `Either`.
- `ThrowingLambdas.dfy`: `src/main/java/throwinglambdas/ThrowingLambdas.java`.
- `Legacy.dfy`: the earlier revision in the root `ThrowingLambdas.java`.

The earlier revision's stateless operations (`safeMapping`, `catchMe`,
`silence`) are the same expressions under other names. In the model they are
defined by the later revision's functions, and each states its own contract.
Its `Garbage` is the same class as the later one. Its scope has its own class,
because the input is stored by `using(t)` and the body runs in `cleanup()`.

The later `TryFinally.with` does not reset the registry, and the model keeps
this. A second `With` on the same scope appends the new registrations and
drains the whole list again, including the first call's registrations.
`With`'s postcondition states this.

## Model

| member | source | states |
|---|---|---|
| `Functional.Either.Left` | src/main/java/throwinglambdas/functional/Either.java:48-54 | null is rejected with a null-pointer failure; otherwise the value is left-tagged only, `GetLeft` returns the argument and `GetRight` fails with an illegal-state error |
| `Functional.Either.Right` | src/main/java/throwinglambdas/functional/Either.java:64-70 | null is rejected with a null-pointer failure; otherwise the value is right-tagged only, `GetRight` returns the argument and `GetLeft` fails with an illegal-state error |
| `Functional.Either.IsLeft` | src/main/java/throwinglambdas/functional/Either.java:77-79 | holds exactly when `GetLeft` returns a value rather than failing |
| `Functional.Either.IsRight` | src/main/java/throwinglambdas/functional/Either.java:86-88 | holds exactly when `GetRight` returns a value rather than failing |
| `Functional.Either.GetLeft` | src/main/java/throwinglambdas/functional/Either.java:95-100 | returns the stored left value when the left side is present; otherwise fails with `IllegalState("Either is of type right.")` |
| `Functional.Either.GetRight` | src/main/java/throwinglambdas/functional/Either.java:107-112 | returns the stored right value when the right side is present; otherwise fails with `IllegalState("Either is of type left.")` |
| `Functional.WrongSideIsIllegalState` | src/main/java/throwinglambdas/functional/Either.java:95-112 | on a factory-shaped value, a getter fails, with an illegal-state error, exactly when the other side is the tagged one |
| `ThrowingLambdas.SafeMap` | src/main/java/throwinglambdas/ThrowingLambdas.java:60-62 | the list overload's result is no longer than its input |
| `ThrowingLambdas.SafeMapMembers` | src/main/java/throwinglambdas/ThrowingLambdas.java:78-84 | an element is in the list result exactly when some input element's mapper result is present and equals it |
| `ThrowingLambdas.SafeMapAppend` | src/main/java/throwinglambdas/ThrowingLambdas.java:79-83 | safe-mapping a concatenation is the concatenation of the results, so input order is kept |
| `ThrowingLambdas.SafeMapSingleton` | src/main/java/throwinglambdas/ThrowingLambdas.java:80-82 | one element contributes its present result, or nothing when the mapper returns empty |
| `ThrowingLambdas.SafeMapAllPresent` | src/main/java/throwinglambdas/ThrowingLambdas.java:80-83 | when every mapper result is present, nothing is dropped: same length, each result at its element's position, duplicates kept |
| `ThrowingLambdas.SafeMapSet` | src/main/java/throwinglambdas/ThrowingLambdas.java:43-45 | the set overload holds exactly the present mapper results of the set's elements |
| `ThrowingLambdas.SafeMapSetCollectsStream` | src/main/java/throwinglambdas/ThrowingLambdas.java:43-44 | the set overload equals the list pipeline collected to a set, for any order of visiting the set |
| `ThrowingLambdas.SafeMapSetNoLarger` | src/main/java/throwinglambdas/ThrowingLambdas.java:30-33 | the set result is no larger than the input set |
| `ThrowingLambdas.SafeMapEvens` | src/main/java/throwinglambdas/ThrowingLambdas.java:78-84 | keeping the evens of `[1,2,3,4]` gives `[2,4]`, and of `{1,2,3,4}` gives `{2,4}` |
| `ThrowingLambdas.ToOptional` | src/main/java/throwinglambdas/ThrowingLambdas.java:96-104 | the adapted function is present exactly when `f` returns a non-null value, and then holds that value; on any failure it is empty; it never fails |
| `ThrowingLambdas.ToEither` | src/main/java/throwinglambdas/ThrowingLambdas.java:117-125 | the adapted function is exactly one-sided: right holding `f`'s non-null result, or left holding the failure `f` threw (a null-pointer failure for a null result); it never fails |
| `ThrowingLambdas.SilenceExceptions` | src/main/java/throwinglambdas/ThrowingLambdas.java:146-154 | returns what `f` returns; fails exactly when `f` fails, with a `RuntimeException` whose cause is `f`'s failure |
| `ThrowingLambdas.ToThrowingFunction` | src/main/java/throwinglambdas/ThrowingLambdas.java:166-168 | returns null exactly when the consumer returns, and otherwise throws the consumer's own failure unchanged |
| `ThrowingLambdas.SilenceConsumerExceptions` | src/main/java/throwinglambdas/ThrowingLambdas.java:134-136 | returns when the consumer returns, and otherwise throws the consumer's failure wrapped in a `RuntimeException` |
| `ThrowingLambdas.ToOptionalAgreesWithToEither` | src/main/java/throwinglambdas/ThrowingLambdas.java:96-125 | `toOptional(f)(t)` is present exactly when `toEither(f)(t)` is right, with the same value |
| `ThrowingLambdas.SilencedStillFails` | src/main/java/throwinglambdas/ThrowingLambdas.java:146-154 | silencing swallows nothing: catching the silenced function gives what catching `f` gives, and the wrapped failure's cause is `f`'s failure |
| `ThrowingLambdas.SafeMapOfToOptional` | src/main/java/throwinglambdas/ThrowingLambdas.java:47-53 | safe-mapping with `toOptional(f)` keeps exactly the non-null values `f` returns on the input |
| `ThrowingLambdas.Drain` | src/main/java/throwinglambdas/ThrowingLambdas.java:270-272 | cleanup invokes a prefix of the registrations, in order, each once; every invoked disposer but the last returned; with no escaping failure all were invoked and returned; an escaping failure is the last invoked disposer's |
| `ThrowingLambdas.DrainNothing` | src/main/java/throwinglambdas/ThrowingLambdas.java:270-272 | cleaning up an empty registry invokes nothing and cannot fail |
| `ThrowingLambdas.DrainAllSucceed` | src/main/java/throwinglambdas/ThrowingLambdas.java:270-272 | when no disposer throws, all are invoked once each in registration order and nothing escapes |
| `ThrowingLambdas.DrainStopsAtFirstFailure` | src/main/java/throwinglambdas/ThrowingLambdas.java:270-272 | the first disposer that throws is the last invoked; the later ones never run; its failure escapes |
| `ThrowingLambdas.Garbage.constructor` | src/main/java/throwinglambdas/ThrowingLambdas.java:252-254 | a new registry is empty |
| `ThrowingLambdas.Garbage.Add` | src/main/java/throwinglambdas/ThrowingLambdas.java:263-265 | appends exactly one registration at the end, keeps the earlier ones, invokes nothing; the appended registration, run by `Invoke`, is `disposer(resource)` on the resource captured at `add` time |
| `ThrowingLambdas.Garbage.Cleanup` | src/main/java/throwinglambdas/ThrowingLambdas.java:270-272 | the loop's invocations and escaping failure are those of `Drain`; the registry is left unchanged (not cleared) |
| `ThrowingLambdas.RunBody` | src/main/java/throwinglambdas/ThrowingLambdas.java:235-237 | a body's registrations are its steps up to its first throw, in order; it throws exactly when it stops short, and then with that step's failure |
| `ThrowingLambdas.Accept` | src/main/java/throwinglambdas/ThrowingLambdas.java:219-221 | running the body appends its registrations to the registry and returns or throws as the body does |
| `ThrowingLambdas.ScopeDiscardsBodyFailure` | src/main/java/throwinglambdas/ThrowingLambdas.java:218-225 | a body that throws after its registrations leaves the same report as a body that makes them and returns normally: the body's failure is discarded |
| `ThrowingLambdas.ScopeInvokesEveryRegistration` | src/main/java/throwinglambdas/ThrowingLambdas.java:218-225 | when no registered disposer throws, every disposer the body registered before it threw (or returned) is invoked, once, in order, and nothing reaches the caller |
| `ThrowingLambdas.ScopeFailureComesFromCleanup` | src/main/java/throwinglambdas/ThrowingLambdas.java:218-225 | a failure that reaches the caller is a registered disposer's failure, never the body's |
| `ThrowingLambdas.TryFinally.constructor` | src/main/java/throwinglambdas/ThrowingLambdas.java:208-211 | the scope keeps the body and starts with a fresh, empty registry |
| `ThrowingLambdas.TryFinally.With` | src/main/java/throwinglambdas/ThrowingLambdas.java:218-225 | the body's registrations are appended to the registry, then the whole registry is drained; the report is `Drain` of the registry |
| `ThrowingLambdas.Using` | src/main/java/throwinglambdas/ThrowingLambdas.java:181-183 | a new scope over the body with a fresh, empty registry; the body has not run |
| `ThrowingLambdas.UsingWith` | src/main/java/throwinglambdas/ThrowingLambdas.java:170-180 | `using(body).with(t)` reports exactly the drain of what the body registered on `t` |
| `LegacyThrowingLambdas.SafeMapping` | ThrowingLambdas.java:34-44 | the list result is no longer than the input and holds exactly the present mapper results |
| `LegacyThrowingLambdas.SafeMappingKeepsOrder` | ThrowingLambdas.java:34-44 | the list result keeps input order and duplicates: a concatenation maps piecewise, and with every result present each output sits at its input's position |
| `LegacyThrowingLambdas.SafeMappingSet` | ThrowingLambdas.java:30-32 | the set result holds exactly the present mapper results |
| `LegacyThrowingLambdas.CatchMe` | ThrowingLambdas.java:46-54 | present exactly when `f` returns a non-null value, holding it; empty on any failure |
| `LegacyThrowingLambdas.Silence` | ThrowingLambdas.java:60-68 | returns what `f` returns; fails exactly when `f` fails, wrapping its failure as cause |
| `LegacyThrowingLambdas.ConsumerFunctionAdapter` | ThrowingLambdas.java:77-81 | returns null exactly when the wrapped consumer returns; otherwise throws its failure unchanged |
| `LegacyThrowingLambdas.SilenceConsumer` | ThrowingLambdas.java:56-58 | returns when the consumer returns; otherwise throws its failure wrapped |
| `LegacyThrowingLambdas.Process` | ThrowingLambdas.java:84-86 | a new scope over the body, with no input yet and an empty registry |
| `LegacyThrowingLambdas.TryFinally.constructor` | ThrowingLambdas.java:93-96 | keeps the body, the input field is null, the registry is fresh and empty |
| `LegacyThrowingLambdas.TryFinally.Using` | ThrowingLambdas.java:98-101 | stores the input and returns the same scope; the registry is untouched, so the body has not run |
| `LegacyThrowingLambdas.TryFinally.Cleanup` | ThrowingLambdas.java:103-110 | the body runs on the stored input, its registrations are appended, its failure is ignored, and the registry is drained |
| `LegacyThrowingLambdas.DemoBody` | ThrowingLambdas.java:19-27 | the body of `main` first registers 5 with `println`; it then throws when the input is null (null-pointer) or below 0.5, and otherwise registers 6 with `println` |
| `LegacyThrowingLambdas.Demo` | ThrowingLambdas.java:19-27 | below 0.5 only the disposer of 5 runs, once, and nothing escapes; otherwise the disposers of 5 and 6 run in that order |
| `LegacyThrowingLambdas.RunMain` | ThrowingLambdas.java:18-28 | `main`: the disposer of 5 is invoked once, 6 is never registered, and the `IOException` does not escape |

## Left out

- The fallible functional interfaces (`ThrowingFunction`, `ThrowingConsumer`,
  `ThrowingStatement`, `Statement`) have no behaviour. They are the function
  types `ThrowingFunction` and `ThrowingConsumer`, and the `Action` invoked
  by `Invoke`.
- Java's exception hierarchy and checked-versus-unchecked typing are left
  out. Every `Throwable` is a `Failure`, and `catch (Throwable)` catches all
  of them alike.
- The generic `Collector`-taking `safeMap`/`safeMapping` overload is left
  out. Collectors are stream-library internals. Only the list (`seq`) and set
  (`set`) instances are modelled.
- A mapper that returns null or throws during `safeMap` is not modelled. A
  mapper is a total `T -> Option<R>`.
- `safeMap`, `safeMapping` and the adapters quantify over their inputs, so
  their element types carry Dafny's `(!new)` bound. Lists or sets of class
  instances, and functions over objects, cannot be written with them.
- A `Double` input of `main` is a `real`. NaN and rounding are not modelled.
  In the source `0.5 > NaN` is false, so a NaN input registers 6.
- Disposers and bodies are pure functions. A second `With` on the same scope
  repeats the first call's outcomes. A Java disposer may behave differently
  on a second call, for example fail on a resource that is already closed.
- Console output of `System.out::println` in `main` is left out. The disposer
  `Println` always returns, and the report's `invoked` list records each call.
- A body can only register and throw. A body that calls `cleanup()` itself, or
  that keeps the registry after the scope, is not modelled.
- Type erasure of (resource, disposer) pairs into closures is not modelled.
  Registrations are `Action`s over one resource type `X` per registry.
- `Either`'s constructor is private in the source. The datatype's constructor
  can be called directly in Dafny. Only the factories are proved to build
  one-sided values (`Valid`).
- `Either` has no equality or hashing of its own. Structural equality of the
  datatype is used only in proofs.
- A null `Either` argument to a getter, and a null body passed to
  `using`/`process`, are not modelled.
