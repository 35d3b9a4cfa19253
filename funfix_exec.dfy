/** The `TimeUnit`, `Duration` and `Future` values of funfix-exec that the
    generators build. */
module FunfixExec {
  import opened FunfixCore

  /** The seven time units, declared from the finest to the coarsest. */
  datatype TimeUnit =
    | Nanoseconds | Microseconds | Milliseconds | Seconds | Minutes | Hours | Days
  {
    /** `unit.ord`: the unit's position in declaration order. */
    function Ord(): (k: nat)
      ensures k <= 6
    {
      match this
      case Nanoseconds => 0
      case Microseconds => 1
      case Milliseconds => 2
      case Seconds => 3
      case Minutes => 4
      case Hours => 5
      case Days => 6
    }
  }

  /** Distinct units have distinct ordinals. */
  lemma OrdInjective(u: TimeUnit, w: TimeUnit)
    ensures u.Ord() == w.Ord() <==> u == w
  {
  }

  /** `new Duration(duration, unit)`, taken as a plain record. */
  datatype Duration = Duration(duration: int, unit: TimeUnit)

  /** `Future<number>` as built by the generators. */
  datatype Future =
    | Pure(value: int)            // Future.pure(value, ec)
    | Raise(error: JsValue)       // Future.raise(error, ec)
    | Of(thunk: Completion<int>)  // Future.of(thunk, ec); thunk is what calling it does
    | Create(callback: Try<int>)  // a created future whose callback, run on the scheduler's
                                  // trampoline, receives `callback` (instances.ts:129)
  {
    /** `fa.value()`: the result if the future has completed, None while it
        is pending. `pure` and `raise` are complete when built; `of` and
        `create` complete through tasks submitted to the scheduler, so they
        are complete exactly when the scheduler has `drained` (run every
        task submitted to it). A thunk that throws completes the future
        with a failure. */
    function Value(drained: bool): (r: Option<Try<int>>)
      ensures r.None? <==> !drained && (Of? || Create?)
      ensures Create? && drained ==> r == Some(callback)
    {
      match this
      case Pure(v) => Some(Success(v))
      case Raise(e) => Some(Failure(e))
      case Of(c) =>
        if !drained then None
        else (match c
              case Normal(v) => Some(Success(v))
              case Throw(e) => Some(Failure(e)))
      case Create(t) => if drained then Some(t) else None
    }
  }
}
