/** Failure-carrying values used throughout the model.
    - Option<T> stands for a cell that may be missing (pandas NaN is None).
    - Result<T, E> stands for a computation that either returns a value or raises. */
module Wrappers {

  datatype Option<+T> = None | Some(value: T)

  datatype Result<+T, +E> = Success(value: T) | Failure(error: E)

  /** Runs fallible steps in order, as a loop whose body may raise: either every step
      succeeds and their values are collected in order, or the first failing step's
      error is returned and the steps after it do not matter. */
  function Sequence<T, E>(rs: seq<Result<T, E>>): (r: Result<seq<T>, E>)
    ensures r.Success? <==> forall i | 0 <= i < |rs| :: rs[i].Success?
    ensures r.Success? ==> |r.value| == |rs| && forall i | 0 <= i < |rs| :: r.value[i] == rs[i].value
    ensures r.Failure? ==> exists i | 0 <= i < |rs| ::
      && rs[i] == Failure(r.error)
      && forall j | 0 <= j < i :: rs[j].Success?
  {
    if |rs| == 0 then Success([])
    else
      match rs[0]
      case Failure(e) => Failure(e)
      case Success(v) =>
        var rest := Sequence(rs[1..]);
        assert forall i | 1 <= i < |rs| :: rs[i] == rs[1..][i - 1];
        if rest.Failure? then
          ghost var i :| 0 <= i < |rs[1..]| && rs[1..][i] == Failure(rest.error)
                         && forall j | 0 <= j < i :: rs[1..][j].Success?;
          assert rs[i + 1] == rs[1..][i];
          Failure(rest.error)
        else
          Success([v] + rest.value)
  }
}
