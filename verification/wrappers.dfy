/** Failure-compatible Option and Result datatypes used throughout the model
    in place of the source's `null`/`undefined` values and thrown errors. */
module Wrappers {

  /** A value that may be absent: the source's `null` or `undefined`. */
  datatype Option<+T> = None | Some(value: T) {

    /** Returns the present value, or `default` when absent (the source's `x || default`). */
    function GetOr(default: T): T {
      match this
      case Some(v) => v
      case None => default
    }
  }

  /** Either a value or the error the source would throw. */
  datatype Result<+T, +E> = Ok(value: T) | Err(error: E) {

    predicate IsFailure() {
      Err?
    }

    function PropagateFailure<U>(): Result<U, E>
      requires Err?
    {
      Err(error)
    }

    function Extract(): T
      requires Ok?
    {
      value
    }
  }

  /** Applies `f` to every element in order, stopping at the first failure (a
      loop whose body may throw). */
  function MapAll<T, U, E>(xs: seq<T>, f: T -> Result<U, E>): (r: Result<seq<U>, E>)
    ensures r.Ok? <==> forall i :: 0 <= i < |xs| ==> f(xs[i]).Ok?
    ensures r.Ok? ==> |r.value| == |xs| && forall i :: 0 <= i < |xs| ==> r.value[i] == f(xs[i]).value
    ensures r.Err? ==> exists i :: 0 <= i < |xs| && f(xs[i]) == Err(r.error)
                                 && forall j :: 0 <= j < i ==> f(xs[j]).Ok?
    decreases |xs|
  {
    if |xs| == 0 then Ok([])
    else
      var head := f(xs[0]);
      if head.Err? then Err(head.error)
      else
        var rest := MapAll(xs[1..], f);
        assert forall i :: 1 <= i < |xs| ==> xs[i] == xs[1..][i - 1];
        if rest.Err? then
          MapAllLaterError(xs, f, rest.error);
          Err(rest.error)
        else
          Ok([head.value] + rest.value)
  }

  lemma MapAllLaterError<T, U, E>(xs: seq<T>, f: T -> Result<U, E>, e: E)
    requires |xs| > 0 && f(xs[0]).Ok?
    requires exists i :: 0 <= i < |xs[1..]| && f(xs[1..][i]) == Err(e)
                         && forall j :: 0 <= j < i ==> f(xs[1..][j]).Ok?
    ensures exists i :: 0 <= i < |xs| && f(xs[i]) == Err(e)
                        && forall j :: 0 <= j < i ==> f(xs[j]).Ok?
  {
    var i :| 0 <= i < |xs[1..]| && f(xs[1..][i]) == Err(e)
             && forall j :: 0 <= j < i ==> f(xs[1..][j]).Ok?;
    assert f(xs[i + 1]) == Err(e);
    forall j | 0 <= j < i + 1 ensures f(xs[j]).Ok? {
      if j > 0 {
        assert xs[j] == xs[1..][j - 1];
      }
    }
  }
}
