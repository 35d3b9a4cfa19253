# funfix generator catalogue, modelled in Dafny

This project models the jsverify generator catalogue of funfix's type-class
tests (`packages/funfix-types/test/ts/instances.ts`). Each generator is a
pair of maps built with `smap`:

- a forward map from a seed (a number, an `int8`, an `int32` or a pair of
  numbers) to a funfix value;
- a backward map from the value back to a seed, which the shrink search
  uses.

The forward maps pick a construction by the seed's remainder,
`switch (seed % n)` or `seed % 4 < 3`. Read back, a sample gives its own
seed for `Option`, `Either`, `Try` and `Duration`. For `TimeUnit` the
read-back is the unit's ordinal: every unit is generated again from it
(`TimeUnitBackwardForward`), but the seed itself comes back only for seeds
0 to 6 (`TimeUnitRoundTrip`); seed 7 reads back as 0 and -1 as 6. The
backward maps of `Eval`, `Future` and `IO` lose more.

Files and modules:

- `js_numbers.dfy`, module `JsNumbers`:
  - `JsRem` is JavaScript's `%` on integers. It truncates toward zero, so a
    negative seed gives a remainder in (-n, 0].
  - `DecimalString` is the text `${i}` produces for an integer of
    magnitude at most 2^53, which covers every int32 seed (above 2^53
    JavaScript rounds the number, and from 10^21 on it writes exponent
    form). `ParseDecimal` reads it
    back, which proves distinct seeds give distinct texts.
- `funfix_core.dfy`, module `FunfixCore`: `Option`, `Either`, `Try`, the
  thrown values `JsValue` (a number or a `DummyError` with its message),
  and `Completion`, the outcome of an expression that may throw.
- `funfix_effect.dfy`, module `FunfixEffect`:
  - `Eval` and `IO` are trees of the constructors the generators call.
  - `Eval.Get` gives the value an `Eval` yields.
  - `IO.Run` gives the `Try` an `IO` completes with.
- `funfix_exec.dfy`, module `FunfixExec`:
  - `TimeUnit` has seven cases, with `Ord` giving 0 to 6 in declaration
    order.
  - `Duration` is a plain (value, unit) record.
  - `Future` has its four construction forms. `Future.Value(drained)` is
    `fa.value()`.
- `instances.dfy`, module `Instances`: the forward and backward map of every
  generator, and the lemmas relating them.

`Branch(seed, n)` models the shared switch shape. Every switch in the file
lists the cases 0 to n-2 and then `default`. With JavaScript's remainder,
a negative seed takes case 0 when it is a multiple of n (the remainder is
`-0`, which matches `case 0`). Any other negative seed takes `default`.

The code applies JavaScript's `%` directly, so negative
seeds are not normalised. As a result most negative seeds take `default`,
and every negative seed gives `Right` in `arbEither` and `Success` in
`arbTry`.

Assumptions about code that is not part of this model:

- `TimeUnit.ord` follows the declaration order NANOSECONDS = 0 to DAYS = 6,
  which is the order the switch at lines 97-105 implies. funfix-exec is not
  part of this model.
- `Future.pure` and `Future.raise` are complete as soon as they are built.
- `Future.of` and the trampolined `Future.create` complete through tasks
  submitted to the scheduler. The parameter `drained` says whether the
  scheduler has run those tasks.
- `Try.get()` throws the failure's error. `fa.failed().get()` returns it.

## Model

| member | source | states |
|---|---|---|
| `JsNumbers.JsRem` | packages/funfix-types/test/ts/instances.ts:55 | the remainder lies strictly between -n and n, has the sign of the dividend, and differs from the dividend by a multiple of n |
| `JsNumbers.JsRemUnique` | packages/funfix-types/test/ts/instances.ts:55 | those three properties determine the remainder uniquely |
| `JsNumbers.JsRemAsEuclidean` | packages/funfix-types/test/ts/instances.ts:97 | JavaScript's remainder equals the Euclidean one for non-negative dividends and multiples of n, and is n less otherwise |
| `JsNumbers.NatDigits` | packages/funfix-types/test/ts/instances.ts:123 | the numeral of a natural number is a non-empty digit string with no leading zero unless the number is 0 |
| `JsNumbers.DecimalString` | packages/funfix-types/test/ts/instances.ts:123 | for the int32 seeds it is applied to, `${i}` starts with `-` exactly for negative i, and all other characters are digits |
| `JsNumbers.ParseNatDigits` | packages/funfix-types/test/ts/instances.ts:127 | reading the digits of n back gives n |
| `JsNumbers.DecimalRoundTrip` | packages/funfix-types/test/ts/instances.ts:127 | reading `${i}` back gives i |
| `JsNumbers.DecimalStringInjective` | packages/funfix-types/test/ts/instances.ts:123 | two integers have the same decimal text exactly when they are equal |
| `FunfixExec.TimeUnit.Ord` | packages/funfix-types/test/ts/instances.ts:107 | a unit's ordinal is at most 6 |
| `Instances.Branch` | packages/funfix-types/test/ts/instances.ts:97-105 | the branch index is below n; a non-negative seed takes branch seed mod n; a negative seed takes case 0 when it is a multiple of n and `default` (n-1) otherwise |
| `Instances.OptNonemptyLaws` | packages/funfix-types/test/ts/instances.ts:50-51 | every sample is `Some` and reads back as its seed; `None` reads back as 0; a value generates itself again after reading back exactly when it is `Some` |
| `Instances.OptNonemptyForward` | packages/funfix-types/test/ts/instances.ts:51 | every sample is `Some` and reads back as its seed |
| `Instances.OptNonemptyBackward` | packages/funfix-types/test/ts/instances.ts:51 | the read-back is the contained value, and 0 for `None` |
| `FunfixCore.Option.GetOrElse` | packages/funfix-types/test/ts/instances.ts:51 | no ensures; funfix-core's `getOrElse`, assumed to return the contained value of a `Some` and the default for `None` |
| `Instances.EitherForward` | packages/funfix-types/test/ts/instances.ts:53-55 | the sample is `Left(i)` exactly when i >= 0 and i mod 4 = 3, and `Right(i)` otherwise |
| `Instances.EitherBackward` | packages/funfix-types/test/ts/instances.ts:56 | the read-back is the value on whichever side it is |
| `FunfixCore.Either.IsRight` | packages/funfix-types/test/ts/instances.ts:56 | no ensures; funfix-core's `isRight()`, assumed to hold exactly for a `Right` |
| `FunfixCore.Either.Swap` | packages/funfix-types/test/ts/instances.ts:56 | no ensures; funfix-core's `swap()`, assumed to put the payload on the other side |
| `Instances.EitherRoundTrip` | packages/funfix-types/test/ts/instances.ts:53-57 | reading a sample back gives its seed; every negative seed gives `Right` |
| `Instances.EitherBackwardForward` | packages/funfix-types/test/ts/instances.ts:53-57 | generating from a value's read-back gives that same value exactly when it is on the side its payload selects |
| `Instances.SuccessLaws` | packages/funfix-types/test/ts/instances.ts:59-60 | every sample is a success that reads back as its seed; reading back a failure throws its error |
| `Instances.SuccessForward` | packages/funfix-types/test/ts/instances.ts:60 | every sample is a success that reads back normally as its seed |
| `Instances.SuccessBackward` | packages/funfix-types/test/ts/instances.ts:60 | the read-back returns normally exactly for a success, with its value, and throws a failure's error |
| `FunfixCore.Try.Get` | packages/funfix-types/test/ts/instances.ts:60 | no ensures; funfix-core's `get()`, assumed to return a success's value and to throw a failure's error |
| `Instances.FailureConstant` | packages/funfix-types/test/ts/instances.ts:62-63 | every draw yields the same `Failure(DummyError("dummy"))` |
| `Instances.FailureSample` | packages/funfix-types/test/ts/instances.ts:63 | the sample is a failure carrying `DummyError("dummy")` |
| `Instances.TryForward` | packages/funfix-types/test/ts/instances.ts:65-67 | the sample is `Failure(i)` exactly when i >= 0 and i mod 4 = 3, and `Success(i)` otherwise |
| `Instances.TryBackward` | packages/funfix-types/test/ts/instances.ts:68 | the read-back is the success value as a number, or the failure's error itself |
| `FunfixCore.Try.IsSuccess` | packages/funfix-types/test/ts/instances.ts:68 | no ensures; funfix-core's `isSuccess()`, assumed to hold exactly for a `Success` |
| `Instances.TryRoundTrip` | packages/funfix-types/test/ts/instances.ts:65-69 | reading a sample back gives its seed; every negative seed gives `Success` |
| `Instances.TryBackwardForward` | packages/funfix-types/test/ts/instances.ts:65-69 | the read-back is a number exactly for successes and numeric failures; such a value generates itself again exactly when its variant matches its payload's remainder |
| `Instances.EvalForward` | packages/funfix-types/test/ts/instances.ts:75-90 | whichever of the five branches is taken, the evaluation yields the seed's second component |
| `Instances.EvalRoundTrip` | packages/funfix-types/test/ts/instances.ts:91 | reading a sample back gives (v1, v1), which equals the seed exactly when v0 = v1 |
| `Instances.EvalBackward` | packages/funfix-types/test/ts/instances.ts:91 | the read-back is a pair of two equal components, both the evaluated value |
| `FunfixEffect.Eval.Get` | packages/funfix-types/test/ts/instances.ts:91 | no ensures of its own; what it yields for every sample is stated by `Instances.EvalForward` |
| `Instances.EvalBranches` | packages/funfix-types/test/ts/instances.ts:78-89 | seeds 0 to 4 reach now, always, once, suspend and flatMap in order; a negative seed reaches now when it is a multiple of 5 and the flatMap form otherwise |
| `Instances.EvalSuspended` | packages/funfix-types/test/ts/instances.ts:85-86 | a seed with remainder 3 gives a suspension whose forced value is the paired value |
| `Instances.TimeUnitForward` | packages/funfix-types/test/ts/instances.ts:94-106 | the ordinal of the unit generated from an int8 seed is the branch index of seed mod 7 |
| `Instances.IsInt8` | packages/funfix-types/test/ts/instances.ts:95 | no ensures; the range of `jv.int8`, taken to be -128 to 127 |
| `Instances.TimeUnitBackward` | packages/funfix-types/test/ts/instances.ts:107 | the read-back of any unit lies in 0 to 6 |
| `Instances.TimeUnitRoundTrip` | packages/funfix-types/test/ts/instances.ts:94-108 | seeds 0 to 6 read back as themselves |
| `Instances.TimeUnitSeedsInOrder` | packages/funfix-types/test/ts/instances.ts:97-104 | seeds 0 to 6 give nanoseconds to days in order |
| `Instances.TimeUnitBackwardForward` | packages/funfix-types/test/ts/instances.ts:94-108 | every unit reads back to an int8 seed that generates it again |
| `Instances.TimeUnitBySign` | packages/funfix-types/test/ts/instances.ts:97-105 | a non-negative seed gives the unit of ordinal seed mod 7; a negative seed gives nanoseconds for multiples of 7 and days otherwise, remainder 6 included |
| `FunfixExec.OrdInjective` | packages/funfix-types/test/ts/instances.ts:107 | distinct units have distinct ordinals |
| `Instances.DurationRoundTrip` | packages/funfix-types/test/ts/instances.ts:110-114 | the pair of maps is a bijection between (number, unit) pairs and durations |
| `Instances.DurationForward` | packages/funfix-types/test/ts/instances.ts:112 | the duration holds the pair's number and unit |
| `Instances.DurationBackward` | packages/funfix-types/test/ts/instances.ts:113 | the read-back pair rebuilds the duration it came from |
| `Instances.DurationSeedRoundTrip` | packages/funfix-types/test/ts/instances.ts:110-114 | every duration reads back, through the time-unit generator, to a number and an int8 seed that generate it again |
| `Instances.DummyMessageInjective` | packages/funfix-types/test/ts/instances.ts:123 | the messages `dummy${i}` of distinct seeds differ |
| `Instances.DummyMessage` | packages/funfix-types/test/ts/instances.ts:123 | the message is "dummy" followed by the seed's decimal text, from which the seed can be read back |
| `Instances.FutureBranches` | packages/funfix-types/test/ts/instances.ts:119-130 | seeds 0 to 4 reach pure, raise, of-returning, of-throwing and create in order; a negative seed gives pure for multiples of 5 and create otherwise |
| `Instances.FutureForward` | packages/funfix-types/test/ts/instances.ts:116-131 | once the scheduler has drained, branches 1 and 3 fail with `DummyError("dummy" + i)` and all others succeed with i; before that only branches 0 and 1 are complete |
| `Instances.FutureBackward` | packages/funfix-types/test/ts/instances.ts:132 | the read-back is total: a completed success reads back as its value, a completed failure and a pending future as 0 |
| `FunfixCore.Try.GetOrElse` | packages/funfix-types/test/ts/instances.ts:132 | no ensures; funfix-core's `getOrElse`, assumed to return a success's value and the default for a failure |
| `Instances.IsInt32` | packages/funfix-types/test/ts/instances.ts:117 | no ensures; the range of `jv.int32`, taken to be -2^31 to 2^31-1 |
| `FunfixExec.Future.Value` | packages/funfix-types/test/ts/instances.ts:132 | a future is pending exactly when it was built by `of` or `create` and the scheduler has not drained; a drained `create` holds its callback's result |
| `Instances.FutureRoundTrip` | packages/funfix-types/test/ts/instances.ts:116-133 | a seed reads back as itself when its future has succeeded, and as 0 when it has failed or is still pending |
| `Instances.FutureForwardInjective` | packages/funfix-types/test/ts/instances.ts:116-131 | distinct int32 seeds build distinct futures, the failing ones included |
| `Instances.IOForward` | packages/funfix-types/test/ts/instances.ts:136-163 | the IO completes with `Failure(v1)` in branches 1 and 6 and with `Success(v1)` in the other nine |
| `Instances.IORoundTrip` | packages/funfix-types/test/ts/instances.ts:164 | every sample reads back as (0, 0), so only the seed (0, 0) survives the round trip |
| `Instances.IOBackward` | packages/funfix-types/test/ts/instances.ts:164 | the read-back ignores the value and is always (0, 0) |
| `FunfixEffect.IO.Run` | packages/funfix-types/test/ts/instances.ts:139-162 | no ensures of its own; the outcome of every sample is stated by `Instances.IOForward` |
| `Instances.IOBranches` | packages/funfix-types/test/ts/instances.ts:139-162 | seeds 0 to 10 reach the eleven constructions in order; a negative seed gives now for multiples of 11 and the memoized suspension otherwise |

## Left out

- `arbAnyPrimitive`, `arbOpt` and `arbAny` (lines 43-48 and 71-73) are not modelled. They depend on JavaScript's runtime typing (`valueOf`, falsy values, null in `Option.of`/`orNull`) and on `jv.sum`.
- jsverify itself is not modelled: `smap`, `pair`, `constant`, sampling and the shrink search. It is a foreign library; the model keeps only the maps passed to it.
- `jv.int8` and `jv.int32` are represented only by the preconditions `IsInt8` and `IsInt32`.
- `jv.number` is a double. Seeds are integers only, because floating-point `%` is not modelled.
- The laziness, memoisation, stack safety and scheduling of `Eval`, `IO` and `Future` are not modelled. `Eval.Get` and `IO.Run` give only the outcome each construction denotes. `memoize`, `memoizeOnSuccess`, `once` and `always` have the same outcome as the expression they wrap.
- The `Scheduler` parameter of `arbFuture` and the asynchronous completion of `Future.of` and `Future.create` through `ec.trampoline` are reduced to the `drained` flag. Because it is a flag, a future cannot be observed partly completed.
- arbFailure has no backward map in the source beyond jsverify's constant generator, so none is modelled; `FailureSample` takes the random draw as a parameter it ignores.
- DecimalString: matches JavaScript's number-to-text conversion only for magnitudes at most 2^53; the rounded digits JavaScript prints above 2^53 and the exponent form it uses from 10^21 on are not modelled, because the model applies it to int32 seeds only.
- The internals of the `Duration` constructor are not modelled; it is taken as a plain record.
