/** Option and Result values for the JavaScript `undefined` and for thrown errors. */
module Wrappers {

  datatype Option<+T> = None | Some(value: T)

  datatype Result<+T, +E> = Success(value: T) | Failure(error: E)

  /**
    Applies `f` to every element in order, as a loop whose body may throw:
    the first failure is the outcome, otherwise all the values in order.
   */
  function CollectResults<T, U, E>(xs: seq<T>, f: T -> Result<U, E>): (r: Result<seq<U>, E>)
    ensures r.Success? ==> |r.value| == |xs| && forall i :: 0 <= i < |xs| ==> f(xs[i]) == Success(r.value[i])
  {
    if xs == [] then Success([])
    else
      match CollectResults(xs[..|xs| - 1], f)
      case Failure(e) => Failure(e)
      case Success(us) =>
        match f(xs[|xs| - 1])
        case Failure(e) => Failure(e)
        case Success(u) => Success(us + [u])
  }

  /** Once an element has failed, the elements after it change nothing. */
  lemma {:induction false} CollectFailureSticks<T, U, E>(xs: seq<T>, ys: seq<T>, f: T -> Result<U, E>)
    requires CollectResults(xs, f).Failure?
    ensures CollectResults(xs + ys, f) == CollectResults(xs, f)
  {
    if ys != [] {
      var init := ys[..|ys| - 1];
      CollectFailureSticks(xs, init, f);
      assert (xs + ys)[..|xs + ys| - 1] == xs + init;
    } else {
      assert xs + ys == xs;
    }
  }

  /** The outcome is a failure exactly when some element fails. */
  lemma {:induction false} CollectResultsFails<T, U, E>(xs: seq<T>, f: T -> Result<U, E>)
    ensures CollectResults(xs, f).Failure? <==> exists i :: 0 <= i < |xs| && f(xs[i]).Failure?
  {
    if xs != [] {
      var n := |xs|;
      var init := xs[..n - 1];
      CollectResultsFails(init, f);
      if CollectResults(init, f).Failure? {
        var i :| 0 <= i < |init| && f(init[i]).Failure?;
        assert xs[i] == init[i];
      } else if f(xs[n - 1]).Failure? {
      } else {
        forall i | 0 <= i < n ensures f(xs[i]).Success? {
          if i < n - 1 {
            assert xs[i] == init[i];
          }
        }
      }
    }
  }
}
