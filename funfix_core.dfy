/** The data types of funfix-core that the generators build, reduced to
    the operations the generators call on them. */
module FunfixCore {

  /** The values a JavaScript `throw` or a `Failure` carries here: a plain
      number (the generators fail with the seed itself) or a `DummyError`
      with its message. */
  datatype JsValue = Number(n: int) | DummyError(message: string)

  /** The outcome of evaluating a JavaScript expression that may throw:
      it returns normally with a value or throws a JsValue. */
  datatype Completion<+A> = Normal(value: A) | Throw(thrown: JsValue)

  datatype Option<+A> = None | Some(value: A) {

    /** `opt.getOrElse(default)`. */
    function GetOrElse(default: A): (r: A)
    {
      match this
      case Some(v) => v
      case None => default
    }
  }

  datatype Either<+L, +R> = Left(left: L) | Right(right: R) {

    /** `fa.isRight()`. */
    predicate IsRight() {
      Right?
    }

    /** `fa.swap()`: the same value on the other side. */
    function Swap(): (r: Either<R, L>)
    {
      match this
      case Left(l) => Right(l)
      case Right(x) => Left(x)
    }
  }

  datatype Try<+A> = Success(value: A) | Failure(error: JsValue) {

    /** `t.isSuccess()`. */
    predicate IsSuccess() {
      Success?
    }

    /** `t.get()`: the success value, or the failure's error thrown. */
    function Get(): (c: Completion<A>)
    {
      match this
      case Success(v) => Normal(v)
      case Failure(e) => Throw(e)
    }

    /** `t.getOrElse(default)`: the success value, or the default. */
    function GetOrElse(default: A): (r: A)
    {
      match this
      case Success(v) => v
      case Failure(_) => default
    }
  }
}
