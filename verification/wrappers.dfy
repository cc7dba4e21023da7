/** Failure-compatible wrappers shared by every module of the model.

    The Python source reports failures by raising exceptions; the model
    returns `Err` with the kind of exception the source raises. */
module Wrappers {

  datatype Option<+T> = None | Some(value: T) {
    predicate IsFailure() { None? }

    function PropagateFailure<U>(): Option<U>
      requires None?
    {
      None
    }

    function Extract(): T
      requires Some?
    {
      value
    }
  }

  /** The Python exception classes the modelled code raises. */
  datatype Error =
    | KeyError
    | ValueError
    | AttributeError
    | TypeError
    | IndexError
    | RuntimeError
    | ZeroDivisionError

  datatype Result<+T> = Ok(value: T) | Err(error: Error) {
    predicate IsFailure() { Err? }

    function PropagateFailure<U>(): Result<U>
      requires Err?
    {
      Err(error)
    }

    function Extract(): T
      requires Ok?
    {
      value
    }
  }

  /** `[f(x) for x in xs]` where `f` may raise: every value in order, or
      the exception of the first element that raises. */
  function MapAll<X, Y>(xs: seq<X>, f: X -> Result<Y>): (r: Result<seq<Y>>)
    ensures r.Ok? <==> forall k :: 0 <= k < |xs| ==> f(xs[k]).Ok?
    ensures r.Ok? ==> |r.value| == |xs| && forall k :: 0 <= k < |xs| ==> r.value[k] == f(xs[k]).value
    ensures r.Err? ==> exists k :: 0 <= k < |xs| && f(xs[k]) == Err(r.error) &&
                                   forall j :: 0 <= j < k ==> f(xs[j]).Ok?
  {
    if |xs| == 0 then Ok([])
    else
      match f(xs[0])
      case Err(e) => Err(e)
      case Ok(y) =>
        var rest := MapAll(xs[1..], f);
        if rest.Err? then
          var k :| 0 <= k < |xs[1..]| && f(xs[1..][k]) == Err(rest.error) &&
                   forall j :: 0 <= j < k ==> f(xs[1..][j]).Ok?;
          assert forall j :: 0 < j <= k ==> xs[j] == xs[1..][j - 1];
          Err(rest.error)
        else
          assert forall j :: 0 < j < |xs| ==> xs[j] == xs[1..][j - 1];
          Ok([y] + rest.value)
  }

  /** When every element maps to the matching value, the whole list maps
      to the values. */
  lemma MapAllOk<X, Y>(xs: seq<X>, f: X -> Result<Y>, ys: seq<Y>)
    requires |xs| == |ys| && forall k :: 0 <= k < |xs| ==> f(xs[k]) == Ok(ys[k])
    ensures MapAll(xs, f) == Ok(ys)
  {
    var r := MapAll(xs, f);
    assert r.Ok?;
    assert r.value == ys;
  }
}
