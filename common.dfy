/** Option and Result values shared by every module of the model. A JavaScript
    exception thrown by the modelled code becomes a `Failure` carrying its message. */
module Common {

  datatype Option<T> = None | Some(value: T)

  datatype Result<T> = Success(value: T) | Failure(error: string)

  /** The first failure at or after position `i`: a loop that stops at the first step
      that throws fails with that step's error. */
  function FirstFailure<T>(rs: seq<Result<T>>, i: nat): (r: Option<nat>)
    requires i <= |rs|
    ensures r.Some? ==> i <= r.value < |rs| && rs[r.value].Failure?
    ensures r.Some? ==> forall k :: i <= k < r.value ==> rs[k].Success?
    ensures r.None? ==> forall k :: i <= k < |rs| ==> rs[k].Success?
    decreases |rs| - i
  {
    if i == |rs| then None
    else if rs[i].Failure? then Some(i)
    else FirstFailure(rs, i + 1)
  }

  lemma {:induction false} FirstFailureAt<T>(rs: seq<Result<T>>, j: nat, i: nat)
    requires j <= i < |rs| && rs[i].Failure?
    requires forall k :: j <= k < i ==> rs[k].Success?
    ensures FirstFailure(rs, j) == Some(i)
    decreases i - j
  {
    if j < i {
      FirstFailureAt(rs, j + 1, i);
    }
  }

  /** The values of steps that all succeeded. */
  function SuccessValues<T>(rs: seq<Result<T>>): (r: seq<T>)
    requires forall k :: 0 <= k < |rs| ==> rs[k].Success?
    ensures |r| == |rs|
    ensures forall k :: 0 <= k < |rs| ==> r[k] == rs[k].value
  {
    seq(|rs|, k requires 0 <= k < |rs| => rs[k].value)
  }

  lemma SuccessValuesSnoc<T>(rs: seq<Result<T>>, i: nat)
    requires i < |rs| && forall k :: 0 <= k <= i ==> rs[k].Success?
    ensures SuccessValues(rs[..i + 1]) == SuccessValues(rs[..i]) + [rs[i].value]
  {
  }
}
