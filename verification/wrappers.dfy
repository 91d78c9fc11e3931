/** Failure-compatible wrappers used throughout the model: `Option` stands for a
    pandas cell that may hold NaN/NaT, `Result` for a computation that may raise. */
module Wrappers {

  datatype Option<+T> = None | Some(value: T) {

    /** Returns the wrapped value, or `default` for a missing one (pandas `fillna`). */
    function GetOr(default: T): T {
      match this
      case Some(v) => v
      case None => default
    }
  }

  datatype Result<+R, +E> = Success(value: R) | Failure(error: E) {

    predicate IsFailure() {
      Failure?
    }

    function PropagateFailure<U>(): Result<U, E>
      requires Failure?
    {
      Failure(error)
    }

    function Extract(): R
      requires Success?
    {
      value
    }
  }

  /** `f` applied to every element in order, stopping at the first failure. */
  function TryMap<T, U, E>(s: seq<T>, f: T -> Result<U, E>): (r: Result<seq<U>, E>)
    ensures r.Success? <==> forall i :: 0 <= i < |s| ==> f(s[i]).Success?
    ensures r.Success? ==> |r.value| == |s|
    ensures r.Success? ==> forall i :: 0 <= i < |s| ==> r.value[i] == f(s[i]).value
  {
    if s == [] then Success([])
    else
      var head := f(s[0]);
      if head.Failure? then Failure(head.error)
      else
        var rest := TryMap(s[1..], f);
        if rest.Failure? then Failure(rest.error)
        else Success([head.value] + rest.value)
  }

  /** A failing `TryMap` reports the error of the first element `f` rejects. */
  lemma {:induction false} TryMapFirstFailure<T, U, E>(s: seq<T>, f: T -> Result<U, E>) returns (i: nat)
    requires TryMap(s, f).Failure?
    ensures i < |s| && f(s[i]).Failure? && TryMap(s, f).error == f(s[i]).error
    ensures forall j :: 0 <= j < i ==> f(s[j]).Success?
  {
    if f(s[0]).Failure? {
      i := 0;
    } else {
      var k := TryMapFirstFailure(s[1..], f);
      i := k + 1;
      assert s[i] == s[1..][k];
      forall j | 0 <= j < i ensures f(s[j]).Success? {
        if j > 0 {
          assert s[j] == s[1..][j - 1];
        }
      }
    }
  }
}
