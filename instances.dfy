/** The generator catalogue of packages/funfix-types/test/ts/instances.ts.
    Each generator is a forward map from a seed to a value and a backward
    map from a value to a seed; both are modelled here as functions, and
    the lemmas relate each pair. */
module Instances {
  import opened JsNumbers
  import opened FunfixCore
  import E = FunfixEffect
  import X = FunfixExec

  predicate IsInt8(n: int) {
    -0x80 <= n < 0x80
  }

  predicate IsInt32(n: int) {
    -0x8000_0000 <= n < 0x8000_0000
  }

  // -------------------------------------------------------------------
  // Variant selection

  /** The branch that `switch (seed % n)` takes when its cases are
      0, 1, ..., n-2 followed by `default`, numbering `default` as n-1.
      With JavaScript's remainder a negative seed takes case 0 when it is
      a multiple of n and `default` otherwise. */
  function Branch(seed: int, n: nat): (b: nat)
    requires n >= 1
    ensures b < n
    ensures seed >= 0 ==> b == seed % n
    ensures seed < 0 ==> b == if seed % n == 0 then 0 else n - 1
  {
    JsRemAsEuclidean(seed, n);
    var r := JsRem(seed, n);
    if 0 <= r < n - 1 then r else n - 1
  }

  // -------------------------------------------------------------------
  // arbOptNonempty (instances.ts:50-51): the seed wrapped as present,
  // read back as the contained value with 0 as the default

  function OptNonemptyForward(x: int): (opt: Option<int>)
    ensures opt.Some? && OptNonemptyBackward(opt) == x
  {
    Some(x)
  }

  /** The contained value, and 0 for an empty option. */
  function OptNonemptyBackward(opt: Option<int>): (x: int)
    ensures opt.Some? ==> x == opt.value
    ensures opt.None? ==> x == 0
  {
    opt.GetOrElse(0)
  }

  /** Every sample is present and reads back as its seed; `None`, which
      the generator never yields, reads back as 0. */
  lemma OptNonemptyLaws(x: int, opt: Option<int>)
    ensures OptNonemptyForward(x).Some?
    ensures OptNonemptyBackward(OptNonemptyForward(x)) == x
    ensures OptNonemptyBackward(None) == 0
    ensures OptNonemptyForward(OptNonemptyBackward(opt)) == opt <==> opt.Some?
  {
  }

  // -------------------------------------------------------------------
  // arbEither (instances.ts:53-57): Left when the seed's remainder by 4
  // is 3, Right otherwise; read back as the value on either side

  function EitherForward(i: int): (fa: Either<int, int>)
    ensures fa == if i >= 0 && i % 4 == 3 then Left(i) else Right(i)
  {
    JsRemAsEuclidean(i, 4);
    if JsRem(i, 4) < 3 then Right(i) else Left(i)
  }

  /** The value on whichever side it is. */
  function EitherBackward(fa: Either<int, int>): (i: int)
    ensures i == if fa.Left? then fa.left else fa.right
  {
    if fa.IsRight() then fa.right else fa.Swap().right
  }

  /** Both sides read back as the seed, so the pair round-trips exactly;
      every negative seed gives Right. */
  lemma EitherRoundTrip(i: int)
    ensures EitherBackward(EitherForward(i)) == i
    ensures i < 0 ==> EitherForward(i).Right?
  {
  }

  /** Reading a value back and generating again gives the same value
      exactly when the value is one the generator yields. */
  lemma EitherBackwardForward(fa: Either<int, int>)
    ensures var i := EitherBackward(fa);
            EitherForward(i) == fa <==> (fa.Left? <==> i >= 0 && i % 4 == 3)
  {
  }

  // -------------------------------------------------------------------
  // arbSuccess (instances.ts:59-60): always a success holding the seed,
  // read back by extracting the success value

  function SuccessForward(i: int): (t: Try<int>)
    ensures t.Success? && SuccessBackward(t) == Normal(i)
  {
    Success(i)
  }

  /** The success value, or the failure's error thrown. */
  function SuccessBackward(t: Try<int>): (c: Completion<int>)
    ensures c.Normal? <==> t.Success?
    ensures t.Success? ==> c.value == t.value
    ensures t.Failure? ==> c.thrown == t.error
  {
    t.Get()
  }

  /** Samples are successes that read back as the seed; reading back a
      failure (never a sample) throws its error. */
  lemma SuccessLaws(i: int, e: JsValue)
    ensures SuccessForward(i).Success?
    ensures SuccessBackward(SuccessForward(i)) == Normal(i)
    ensures SuccessBackward(Failure(e)) == Throw(e)
  {
  }

  // -------------------------------------------------------------------
  // arbFailure (instances.ts:62-63): jsverify's constant generator

  /** The sample for any random draw: the generator ignores it. */
  function FailureSample(draw: int): (t: Try<int>)
    ensures t.Failure? && t.error == DummyError("dummy")
  {
    Failure(DummyError("dummy"))
  }

  lemma FailureConstant(draw: int, other: int)
    ensures FailureSample(draw) == FailureSample(other)
    ensures FailureSample(draw).Failure?
    ensures FailureSample(draw).error == DummyError("dummy")
  {
  }

  // -------------------------------------------------------------------
  // arbTry (instances.ts:65-69): a failure carrying the seed when its
  // remainder by 4 is 3, a success otherwise

  function TryForward(i: int): (t: Try<int>)
    ensures t == if i >= 0 && i % 4 == 3 then Failure(Number(i)) else Success(i)
  {
    JsRemAsEuclidean(i, 4);
    if JsRem(i, 4) < 3 then Success(i) else Failure(Number(i))
  }

  /** The read-back of instances.ts:68: the success value, or the
      failure's error itself. */
  function TryBackward(fa: Try<int>): (v: JsValue)
    ensures fa.Success? ==> v == Number(fa.value)
    ensures fa.Failure? ==> v == fa.error
  {
    if fa.IsSuccess() then Number(fa.value) else fa.error
  }

  lemma TryRoundTrip(i: int)
    ensures TryBackward(TryForward(i)) == Number(i)
    ensures i < 0 ==> TryForward(i).Success?
  {
  }

  /** A try read back as a number generates itself again exactly when it
      is one the generator yields; a DummyError failure is read back as
      the error, which is no seed. */
  lemma TryBackwardForward(fa: Try<int>)
    ensures TryBackward(fa).Number? <==> (fa.Success? || fa.error.Number?)
    ensures var v := TryBackward(fa);
            v.Number? ==> (TryForward(v.n) == fa <==> (fa.Failure? <==> v.n >= 0 && v.n % 4 == 3))
  {
  }

  // -------------------------------------------------------------------
  // arbEval (instances.ts:75-92): five constructions chosen by the first
  // component's remainder by 5; read back as the evaluated value, twice

  function EvalForward(v: (int, int)): (u: E.Eval)
    ensures u.Get() == v.1
  {
    match Branch(v.0, 5)
    case 0 => E.Eval.Now(v.1)
    case 1 => E.Eval.Always(v.1)
    case 2 => E.Eval.Once(v.1)
    case 3 => E.Eval.Suspend(E.Eval.Now(v.1))
    case _ => E.Eval.FlatMapConst(E.Eval.Now(0), E.Eval.Now(v.1))
  }

  /** The evaluated value in both components. */
  function EvalBackward(u: E.Eval): (p: (int, int))
    ensures p.0 == p.1 == u.Get()
  {
    (u.Get(), u.Get())
  }

  /** The value comes back in both components: the seed's first component
      is lost unless it already equalled the second. */
  lemma EvalRoundTrip(v: (int, int))
    ensures EvalBackward(EvalForward(v)) == (v.1, v.1)
    ensures EvalBackward(EvalForward(v)) == v <==> v.0 == v.1
  {
  }

  /** Seeds 0 to 4 reach the five constructions in order; a negative
      seed reaches `now` when it is a multiple of 5 and the flatMap
      construction otherwise. */
  lemma EvalBranches(x: int, k: int)
    ensures EvalForward((0, x)).Now? && EvalForward((1, x)).Always?
    ensures EvalForward((2, x)).Once? && EvalForward((3, x)).Suspend?
    ensures EvalForward((4, x)).FlatMapConst?
    ensures k < 0 ==> EvalForward((k, x)) == if k % 5 == 0 then E.Eval.Now(x)
                       else E.Eval.FlatMapConst(E.Eval.Now(0), E.Eval.Now(x))
  {
  }

  /** A seed whose remainder is 3 gives a suspended evaluation that yields
      the paired value when forced. */
  lemma EvalSuspended(k: int, x: int)
    requires k >= 0 && k % 5 == 3
    ensures EvalForward((k, x)) == E.Eval.Suspend(E.Eval.Now(x))
    ensures EvalForward((k, x)).next.Get() == x
  {
  }

  // -------------------------------------------------------------------
  // arbTimeUnit (instances.ts:94-108): seven units chosen by an int8
  // seed's remainder by 7; read back as the unit's ordinal

  function TimeUnitForward(n: int): (u: X.TimeUnit)
    requires IsInt8(n)
    ensures u.Ord() == Branch(n, 7)
  {
    match Branch(n, 7)
    case 0 => X.Nanoseconds
    case 1 => X.Microseconds
    case 2 => X.Milliseconds
    case 3 => X.Seconds
    case 4 => X.Minutes
    case 5 => X.Hours
    case _ => X.Days
  }

  function TimeUnitBackward(u: X.TimeUnit): (n: int)
    ensures 0 <= n <= 6
  {
    u.Ord()
  }

  /** Seeds 0 to 6 give the seven units in order and read back as
      themselves. */
  lemma TimeUnitRoundTrip(n: int)
    requires 0 <= n <= 6
    ensures TimeUnitBackward(TimeUnitForward(n)) == n
  {
  }

  lemma TimeUnitSeedsInOrder()
    ensures TimeUnitForward(0) == X.Nanoseconds && TimeUnitForward(1) == X.Microseconds
    ensures TimeUnitForward(2) == X.Milliseconds && TimeUnitForward(3) == X.Seconds
    ensures TimeUnitForward(4) == X.Minutes && TimeUnitForward(5) == X.Hours
    ensures TimeUnitForward(6) == X.Days
  {
  }

  /** Every unit is a sample: reading it back gives an int8 seed that
      generates it again. */
  lemma TimeUnitBackwardForward(u: X.TimeUnit)
    ensures IsInt8(TimeUnitBackward(u))
    ensures TimeUnitForward(TimeUnitBackward(u)) == u
  {
  }

  /** A non-negative seed gives the unit with ordinal seed % 7; a negative
      seed gives nanoseconds when it is a multiple of 7 and days otherwise. */
  lemma TimeUnitBySign(n: int)
    requires IsInt8(n)
    ensures n >= 0 ==> TimeUnitForward(n).Ord() == n % 7
    ensures n < 0 ==> TimeUnitForward(n) == if n % 7 == 0 then X.Nanoseconds else X.Days
  {
    if n < 0 && n % 7 != 0 {
      X.OrdInjective(TimeUnitForward(n), X.Days);
    }
  }

  // -------------------------------------------------------------------
  // arbDuration (instances.ts:110-114): a number and a time unit paired
  // into a duration, and split apart again

  function DurationForward(v: (int, X.TimeUnit)): (d: X.Duration)
    ensures d.duration == v.0 && d.unit == v.1
  {
    X.Duration(v.0, v.1)
  }

  function DurationBackward(d: X.Duration): (v: (int, X.TimeUnit))
    ensures X.Duration(v.0, v.1) == d
  {
    (d.duration, d.unit)
  }

  /** The pair is a bijection between pairs and durations. */
  lemma DurationRoundTrip(v: (int, X.TimeUnit), d: X.Duration)
    ensures DurationBackward(DurationForward(v)) == v
    ensures DurationForward(DurationBackward(d)) == d
  {
  }

  /** Through the time-unit generator's seeds: every duration reads back
      to a number and an int8 seed that generate it again. */
  lemma DurationSeedRoundTrip(d: X.Duration)
    ensures var (x, u) := DurationBackward(d);
            IsInt8(TimeUnitBackward(u)) &&
            DurationForward((x, TimeUnitForward(TimeUnitBackward(u)))) == d
  {
    TimeUnitBackwardForward(d.unit);
  }

  // -------------------------------------------------------------------
  // arbFuture (instances.ts:116-133): five constructions chosen by an
  // int32 seed's remainder by 5

  /** The message of the DummyError built at instances.ts:123 and :127:
      the word "dummy" followed by the seed's decimal text. */
  function DummyMessage(i: int): (m: string)
    ensures |m| > 5 && m[..5] == "dummy" && m[5..] == DecimalString(i)
    ensures ParseDecimal(m[5..]) == i
  {
    DecimalRoundTrip(i);
    assert ("dummy" + DecimalString(i))[5..] == DecimalString(i);
    "dummy" + DecimalString(i)
  }

  lemma DummyMessageInjective(i: int, j: int)
    ensures DummyMessage(i) == DummyMessage(j) <==> i == j
  {
    if DummyMessage(i) == DummyMessage(j) {
      assert DecimalString(i) == DummyMessage(i)[5..];
      assert DecimalString(j) == DummyMessage(j)[5..];
      DecimalStringInjective(i, j);
    }
  }

  /** Once the scheduler has drained, branches 1 and 3 have failed with a
      DummyError naming the seed and all others have succeeded with the
      seed. Before that only branches 0 and 1 are complete. */
  function FutureForward(i: int): (fa: X.Future)
    requires IsInt32(i)
    ensures var b := Branch(i, 5);
            fa.Value(true) ==
              Some(if b == 1 || b == 3 then Failure(DummyError(DummyMessage(i))) else Success(i))
    ensures fa.Value(false).Some? <==> Branch(i, 5) <= 1
  {
    match Branch(i, 5)
    case 0 => X.Pure(i)
    case 1 => X.Raise(DummyError(DummyMessage(i)))
    case 2 => X.Of(Normal(i))
    case 3 => X.Of(Throw(DummyError(DummyMessage(i))))
    case _ => X.Create(Success(i))
  }

  /** The read-back of instances.ts:132. It is total: a completed success
      reads back as its value, a completed failure and a pending future
      as 0. */
  function FutureBackward(fa: X.Future, drained: bool): (i: int)
    ensures fa.Value(drained).None? ==> i == 0
    ensures fa.Value(drained).Some? && fa.Value(drained).value.Failure? ==> i == 0
    ensures fa.Value(drained).Some? && fa.Value(drained).value.Success? ==>
              i == fa.Value(drained).value.value
  {
    fa.Value(drained).GetOrElse(Success(0)).GetOrElse(0)
  }

  /** Seeds 0 to 4 reach the five constructions in order; a negative seed
      builds a completed `pure` when it is a multiple of 5 and the
      trampolined `create` otherwise. */
  lemma FutureBranches(i: int)
    requires IsInt32(i)
    ensures FutureForward(0).Pure? && FutureForward(1).Raise?
    ensures FutureForward(2) == X.Of(Normal(2))
    ensures FutureForward(3).Of? && FutureForward(3).thunk.Throw?
    ensures FutureForward(4).Create?
    ensures i < 0 ==> FutureForward(i) == if i % 5 == 0 then X.Pure(i) else X.Create(Success(i))
  {
  }

  /** What the seed comes back as: itself for a success that has completed,
      0 for a failure or a future still pending. */
  lemma FutureRoundTrip(i: int, drained: bool)
    requires IsInt32(i)
    ensures var b := Branch(i, 5);
            FutureBackward(FutureForward(i), drained) ==
              if b == 0 || (drained && (b == 2 || b == 4)) then i else 0
  {
  }

  /** Distinct seeds build distinct futures, the failing ones included,
      since their error message spells the seed: the backward map loses
      information the value still holds. */
  lemma FutureForwardInjective(i: int, j: int)
    requires IsInt32(i) && IsInt32(j)
    ensures FutureForward(i) == FutureForward(j) <==> i == j
  {
    if FutureForward(i) == FutureForward(j) {
      var bi, bj := Branch(i, 5), Branch(j, 5);
      if bi == 1 || bi == 3 {
        assert FutureForward(i).Raise? || FutureForward(i).thunk.Throw?;
        assert DummyMessage(i) == DummyMessage(j);
        DummyMessageInjective(i, j);
      }
    }
  }

  // -------------------------------------------------------------------
  // arbIO (instances.ts:136-165): eleven constructions chosen by the first
  // component's remainder by 11; always read back as the pair (0, 0)

  function IOForward(v: (int, int)): (io: E.IO)
    ensures var b := Branch(v.0, 11);
            io.Run() == if b == 1 || b == 6 then Failure(Number(v.1)) else Success(v.1)
  {
    match Branch(v.0, 11)
    case 0 => E.IO.Now(v.1)
    case 1 => E.IO.Raise(Number(v.1))
    case 2 => E.IO.Always(v.1)
    case 3 => E.IO.Once(v.1)
    case 4 => E.IO.Suspend(E.IO.Now(v.1))
    case 5 => E.IO.Async(Success(v.1))
    case 6 => E.IO.Async(Failure(Number(v.1)))
    case 7 => E.IO.FlatMap(E.IO.Async(Success(v.1)), E.ToNow)
    case 8 => E.IO.FlatMap(E.IO.Now(0), E.Const(E.IO.Now(v.1)))
    case 9 => E.IO.MemoizeOnSuccess(E.IO.Always(v.1))
    case _ =>
      assert E.IO.Suspend(E.IO.Now(v.1)).Run() == Success(v.1);
      E.IO.Memoize(E.IO.Suspend(E.IO.Now(v.1)))
  }

  /** The read-back ignores the value. */
  function IOBackward(u: E.IO): (p: (int, int))
    ensures p == (0, 0)
  {
    (0, 0)
  }

  /** The backward map forgets the value: only the seed (0, 0) survives
      the round trip. */
  lemma IORoundTrip(v: (int, int))
    ensures IOBackward(IOForward(v)) == (0, 0)
    ensures IOBackward(IOForward(v)) == v <==> v == (0, 0)
  {
  }

  /** Seeds 0 to 10 reach the eleven constructions in order; a negative
      seed reaches `now` when it is a multiple of 11 and the memoized
      suspension otherwise. */
  lemma IOBranches(x: int, k: int)
    ensures IOForward((0, x)).Now? && IOForward((1, x)).Raise?
    ensures IOForward((2, x)).Always? && IOForward((3, x)).Once?
    ensures IOForward((4, x)).Suspend? && IOForward((5, x)) == E.IO.Async(Success(x))
    ensures IOForward((6, x)) == E.IO.Async(Failure(Number(x)))
    ensures IOForward((7, x)).FlatMap? && IOForward((7, x)).k.ToNow?
    ensures IOForward((8, x)).FlatMap? && IOForward((8, x)).k.Const?
    ensures IOForward((9, x)).MemoizeOnSuccess? && IOForward((10, x)).Memoize?
    ensures k < 0 ==> IOForward((k, x)) == if k % 11 == 0 then E.IO.Now(x)
                       else E.IO.Memoize(E.IO.Suspend(E.IO.Now(x)))
  {
  }
}
