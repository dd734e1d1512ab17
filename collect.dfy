/**
 * A loop or list comprehension that applies a step raising an exception
 * to every element: the results in order, or the exception of the first
 * element whose step raises.
 */
module Collect {
  import opened Wrappers

  /** `[f(x) for x in xs]` where `f` may raise. */
  function MapResult<A, B, E>(f: A -> Result<B, E>, xs: seq<A>): (r: Result<seq<B>, E>)
    ensures r.Success? ==> |r.value| == |xs|
  {
    if xs == [] then Success([])
    else
      var n := |xs| - 1;
      var init :- MapResult(f, xs[..n]);
      var last :- f(xs[n]);
      Success(init + [last])
  }

  /** The i-th result is the step applied to the i-th element. */
  lemma {:induction false} MapResultValues<A, B, E>(f: A -> Result<B, E>, xs: seq<A>)
    requires MapResult(f, xs).Success?
    ensures forall i :: 0 <= i < |xs| ==> f(xs[i]) == Success(MapResult(f, xs).value[i])
  {
    if xs != [] {
      var n := |xs| - 1;
      var init := xs[..n];
      MapResultValues(f, init);
      forall i | 0 <= i < n
        ensures f(xs[i]) == Success(MapResult(f, xs).value[i])
      {
        assert init[i] == xs[i];
      }
    }
  }

  /** The whole comprehension succeeds exactly when every step does. */
  lemma {:induction false} MapResultSucceeds<A, B, E>(f: A -> Result<B, E>, xs: seq<A>)
    ensures MapResult(f, xs).Success? <==> forall i :: 0 <= i < |xs| ==> f(xs[i]).Success?
  {
    if xs != [] {
      var n := |xs| - 1;
      var init := xs[..n];
      MapResultSucceeds(f, init);
      assert forall i :: 0 <= i < n ==> init[i] == xs[i];
    }
  }

  /** One more element whose step succeeds: its result goes at the end. */
  lemma MapResultStep<A, B, E>(f: A -> Result<B, E>, xs: seq<A>, i: int, ys: seq<B>, y: B)
    requires 0 <= i < |xs|
    requires MapResult(f, xs[..i]) == Success(ys)
    requires f(xs[i]) == Success(y)
    ensures MapResult(f, xs[..i + 1]) == Success(ys + [y])
  {
    assert xs[..i + 1][..i] == xs[..i];
  }

  /** A step that raises after steps that all succeed decides the exception of the whole. */
  lemma {:induction false} MapResultFailure<A, B, E>(f: A -> Result<B, E>, xs: seq<A>, i: int)
    requires 0 <= i < |xs|
    requires MapResult(f, xs[..i]).Success?
    requires f(xs[i]).Failure?
    ensures MapResult(f, xs) == Failure(f(xs[i]).error)
    decreases |xs|
  {
    var n := |xs| - 1;
    var init := xs[..n];
    if i < n {
      assert init[..i] == xs[..i] && init[i] == xs[i];
      MapResultFailure(f, init, i);
    } else {
      assert init == xs[..i];
    }
  }

  /** A comprehension that raises does so at a step that raises, after steps that all succeed. */
  lemma {:induction false} MapResultFirstFailure<A, B, E>(f: A -> Result<B, E>, xs: seq<A>) returns (i: int)
    requires MapResult(f, xs).Failure?
    ensures 0 <= i < |xs| && f(xs[i]) == Failure(MapResult(f, xs).error)
    ensures forall j :: 0 <= j < i ==> f(xs[j]).Success?
  {
    var n := |xs| - 1;
    var init := xs[..n];
    if MapResult(f, init).Failure? {
      i := MapResultFirstFailure(f, init);
      assert forall j :: 0 <= j <= i ==> init[j] == xs[j];
    } else {
      MapResultSucceeds(f, init);
      assert forall j :: 0 <= j < n ==> init[j] == xs[j];
      i := n;
    }
  }
}
