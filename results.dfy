/** Option and Result values, and the Python exceptions the modelled code raises. */
module Results {

  datatype Option<+T> = None | Some(value: T)

  /** The exception classes that the modelled functions can raise. */
  datatype Error =
    | AttributeError
    | KeyError
    | IndexError
    | TypeError
    | ValueError
    | IsNoneError

  datatype Result<+T> = Success(value: T) | Failure(error: Error) {
    predicate IsFailure() { Failure? }
    function PropagateFailure<U>(): Result<U>
      requires Failure?
    {
      Failure(error)
    }
    function Extract(): T
      requires Success?
    {
      value
    }
  }

  /** `f` applied to each of `xs` in order, stopping at the first error. */
  function Each<X, T>(xs: seq<X>, f: X -> Result<T>): (r: Result<seq<T>>)
    ensures r.Success? <==> forall i :: 0 <= i < |xs| ==> f(xs[i]).Success?
    ensures r.Failure? ==>
      exists i :: 0 <= i < |xs| && f(xs[i]) == Failure(r.error) && forall j :: 0 <= j < i ==> f(xs[j]).Success?
    ensures r.Success? ==> |r.value| == |xs|
    ensures r.Success? ==> forall i :: 0 <= i < |xs| ==> f(xs[i]) == Success(r.value[i])
    decreases |xs|
  {
    if xs == [] then Success([])
    else
      var first := f(xs[0]);
      if first.Failure? then Failure(first.error)
      else
        var rest := Each(xs[1..], f);
        if rest.Failure? then
          var i :| 0 <= i < |xs| - 1 && f(xs[1..][i]) == Failure(rest.error) &&
            forall j :: 0 <= j < i ==> f(xs[1..][j]).Success?;
          assert xs[1..][i] == xs[i + 1];
          assert forall j :: 1 <= j < i + 1 ==> xs[1..][j - 1] == xs[j];
          Failure(rest.error)
        else Success([first.value] + rest.value)
  }
}
