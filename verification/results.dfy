/** Success/failure values used to model the exceptions the pipeline raises. */
module Results {

  /** Either a computed value or the error the source would raise instead. */
  datatype Result<+T, +E> = Ok(value: T) | Err(error: E) {

    predicate IsFailure() {
      Err?
    }

    function PropagateFailure<U>(): Result<U, E>
      requires Err?
    {
      Err(error)
    }

    function Extract(): T
      requires Ok?
    {
      value
    }
  }

  /** A value that may be absent. */
  datatype Option<+T> = Some(value: T) | None

  /** `[f(x) for x in xs]` where `f` may raise: the values in order, or the error of the first
      element that fails. */
  function MapResult<A, B, E>(f: A -> Result<B, E>, xs: seq<A>): (r: Result<seq<B>, E>)
    ensures r.Ok? <==> forall k :: 0 <= k < |xs| ==> f(xs[k]).Ok?
    ensures r.Ok? ==> |r.value| == |xs| && forall k :: 0 <= k < |xs| ==> f(xs[k]) == Ok(r.value[k])
  {
    if |xs| == 0 then Ok([])
    else
      var y :- f(xs[0]);
      var ys :- MapResult(f, xs[1..]);
      Ok([y] + ys)
  }

  /** The error `MapResult` reports is that of the first element that fails. */
  lemma {:induction false} MapResultFirstError<A, B, E>(f: A -> Result<B, E>, xs: seq<A>, k: nat)
    requires k < |xs| && f(xs[k]).Err?
    requires forall j :: 0 <= j < k ==> f(xs[j]).Ok?
    ensures MapResult(f, xs) == Err(f(xs[k]).error)
  {
    if k > 0 {
      MapResultFirstError(f, xs[1..], k - 1);
    }
  }
}
