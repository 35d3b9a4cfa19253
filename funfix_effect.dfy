/** The `Eval` and `IO` values of funfix-effect that the generators build,
    as trees of the constructors the generators call. Each tree denotes the
    outcome of evaluating it; when it is evaluated and how often (laziness,
    memoisation, trampolining) is not represented. */
module FunfixEffect {
  import opened FunfixCore

  /** `Eval<number>` as built by the generators. The thunks given to
      `always` and `once` return a constant, so each is represented by the
      value it returns. */
  datatype Eval =
    | Now(a: int)                           // Eval.now(a)
    | Always(thunk: int)                    // Eval.always(() => thunk)
    | Once(thunk: int)                      // Eval.once(() => thunk)
    | Suspend(next: Eval)                   // Eval.suspend(() => next)
    | FlatMapConst(source: Eval, next: Eval) // source.flatMap(_ => next)
  {
    /** `u.get()`: the value the evaluation yields. None of these
        constructors can throw, so `get` always returns. */
    function Get(): (r: int) {
      match this
      case Now(a) => a
      case Always(x) => x
      case Once(x) => x
      case Suspend(next) => next.Get()
      case FlatMapConst(source, next) => next.Get()
    }
  }

  /** What an `IO.flatMap` continuation does with the value it receives:
      `IO.now` passes it on, a constant continuation ignores it. */
  datatype IOCont = ToNow | Const(next: IO)

  /** `IO<number>` as built by the generators. */
  datatype IO =
    | Now(a: int)                           // IO.now(a), IO.pure(a)
    | Raise(e: JsValue)                     // IO.raise(e)
    | Always(thunk: int)                    // IO.always(() => thunk)
    | Once(thunk: int)                      // IO.once(() => thunk)
    | Suspend(next: IO)                     // IO.suspend(() => next)
    | Async(callback: Try<int>)             // an async IO whose callback receives `callback` (instances.ts:151, :153)
    | FlatMap(source: IO, k: IOCont)        // source.flatMap(k)
    | MemoizeOnSuccess(source: IO)          // source.memoizeOnSuccess()
    | Memoize(source: IO)                   // source.memoize()
  {
    /** The result the IO completes with once run. */
    function Run(): (r: Try<int>) {
      match this
      case Now(a) => Success(a)
      case Raise(e) => Failure(e)
      case Always(x) => Success(x)
      case Once(x) => Success(x)
      case Suspend(next) => next.Run()
      case Async(t) => t
      case FlatMap(source, k) =>
        (match source.Run()
         case Failure(e) => Failure(e)
         case Success(x) =>
           (match k
            case ToNow => Success(x)
            case Const(next) => next.Run()))
      case MemoizeOnSuccess(source) => source.Run()
      case Memoize(source) => source.Run()
    }
  }
}
