// Option and Result, the two failure-carrying wrappers the rest of the model uses
// for the source's `Option<T>` and `Result<T, E>`.
module Wrappers {

  datatype Option<+T> = None | Some(value: T)

  datatype Result<+T, +E> = Ok(value: T) | Err(error: E) {
    predicate IsFailure() { Err? }

    function PropagateFailure<U>(): Result<U, E>
      requires Err?
    {
      Err(error)
    }

    function Extract(): T
      requires Ok?
    {
      value
    }
  }

  /** `collect` of an iterator of results into a `Result`: all the values in order,
      or the first error. */
  function CollectResults<T, E>(rs: seq<Result<T, E>>): (r: Result<seq<T>, E>)
    ensures r.Ok? <==> forall i :: 0 <= i < |rs| ==> rs[i].Ok?
    ensures r.Ok? ==> |r.value| == |rs| && forall i :: 0 <= i < |rs| ==> rs[i] == Ok(r.value[i])
  {
    if rs == [] then Ok([])
    else
      match rs[0]
      case Err(e) => Err(e)
      case Ok(x) =>
        match CollectResults(rs[1..])
        case Err(e) =>
          assert exists i :: 0 <= i < |rs| - 1 && !rs[1..][i].Ok?;
          Err(e)
        case Ok(xs) =>
          assert forall i :: 0 < i < |rs| ==> rs[i] == rs[1..][i - 1];
          Ok([x] + xs)
  }

  /** The error collected is that of the first result that is an error. */
  lemma {:induction false} CollectFailsAtFirst<T, E>(rs: seq<Result<T, E>>) returns (i: nat)
    requires CollectResults(rs).Err?
    ensures i < |rs| && rs[i] == Err(CollectResults(rs).error) && forall j :: 0 <= j < i ==> rs[j].Ok?
  {
    if rs[0].Err? {
      i := 0;
    } else {
      var k := CollectFailsAtFirst(rs[1..]);
      i := k + 1;
      assert rs[i] == rs[1..][k];
      assert forall j :: 0 < j < i ==> rs[j] == rs[1..][j - 1];
    }
  }
}
