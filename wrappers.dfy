/** Failure-compatible Option and Result types, standing in for Rust's
    `Option<T>` and `anyhow::Result<T>`. */
module Wrappers {

  datatype Option<+T> = None | Some(value: T) {
    predicate IsFailure() {
      None?
    }

    function PropagateFailure<U>(): Option<U>
      requires None?
    {
      None
    }

    function Extract(): T
      requires Some?
    {
      value
    }
  }

  datatype Result<+T, +E> = Success(value: T) | Failure(error: E) {
    predicate IsFailure() {
      Failure?
    }

    function PropagateFailure<U>(): Result<U, E>
      requires Failure?
    {
      Failure(error)
    }

    function Extract(): T
      requires Success?
    {
      value
    }

    /** Rewraps the error, as `anyhow::Context` does with a message. */
    function MapFailure<F>(wrap: E -> F): Result<T, F> {
      match this
      case Success(v) => Success(v)
      case Failure(e) => Failure(wrap(e))
    }
  }

  /** Rust's `collect::<Result<Vec<_>, _>>()`: all the values in order, or the
      error of the first failure. */
  function Collect<T, E>(results: seq<Result<T, E>>): (r: Result<seq<T>, E>)
    ensures r.Success? <==> forall k :: 0 <= k < |results| ==> results[k].Success?
    ensures r.Success? ==>
      |r.value| == |results| && forall k :: 0 <= k < |results| ==> r.value[k] == results[k].value
    ensures r.Failure? ==>
      exists k :: 0 <= k < |results| && results[k] == Failure(r.error)
        && forall j :: 0 <= j < k ==> results[j].Success?
    decreases |results|
  {
    if |results| == 0 then Success([])
    else
      match results[0]
      case Failure(e) => Failure(e)
      case Success(v) =>
        match Collect(results[1..])
        case Failure(e) =>
          ghost var k :| 0 <= k < |results[1..]| && results[1..][k] == Failure(e)
            && forall j :: 0 <= j < k ==> results[1..][j].Success?;
          assert results[k + 1] == Failure(e);
          Failure(e)
        case Success(vs) => Success([v] + vs)
  }

}
