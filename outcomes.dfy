/** Absence and failure values shared by every module of the model. */
module Outcomes {

  /** A value that may be absent: Python's `None` versus a present value. */
  datatype Option<+T> = None | Some(value: T)

  /** The outcome of an operation that may raise. */
  datatype Result<+T, +E> = Ok(value: T) | Err(error: E)

  /**
   * The leftmost position `k` with `from <= k < bound` at which `p` holds:
   * the scan a regular-expression search performs over start positions.
   */
  function FirstMatch(from: nat, bound: nat, p: nat -> bool): (r: Option<nat>)
    ensures r.Some? ==> from <= r.value < bound && p(r.value)
    ensures r.Some? ==> forall j :: from <= j < r.value ==> !p(j)
    ensures r.None? ==> forall j :: from <= j < bound ==> !p(j)
    decreases bound - from
  {
    if from >= bound then None
    else if p(from) then Some(from)
    else FirstMatch(from + 1, bound, p)
  }

  /**
   * A loop that raises at its first failing step: the values of `rs` in
   * order, or the first error among them.
   */
  function Collect<T, E>(rs: seq<Result<T, E>>): (r: Result<seq<T>, E>)
    ensures r.Ok? ==> |r.value| == |rs|
  {
    if rs == [] then Ok([])
    else
      match Collect(rs[..|rs| - 1])
      case Err(e) => Err(e)
      case Ok(vs) =>
        match rs[|rs| - 1]
        case Err(e) => Err(e)
        case Ok(v) => Ok(vs + [v])
  }

  /**
   * `Collect` succeeds exactly when every step does, and then holds every
   * step's value in order; otherwise it fails with the error of the first
   * failing step.
   */
  lemma {:induction false} CollectSpec<T, E>(rs: seq<Result<T, E>>)
    ensures Collect(rs).Ok? <==> forall i :: 0 <= i < |rs| ==> rs[i].Ok?
    ensures Collect(rs).Ok? ==> forall i :: 0 <= i < |rs| ==> Collect(rs).value[i] == rs[i].value
    ensures Collect(rs).Err? ==> exists i :: (
      && 0 <= i < |rs|
      && (forall j :: 0 <= j < i ==> rs[j].Ok?)
      && rs[i] == Err(Collect(rs).error))
  {
    if rs != [] {
      var n := |rs| - 1;
      var init := rs[..n];
      CollectSpec(init);
      assert forall i :: 0 <= i < n ==> rs[i] == init[i];
      if Collect(init).Err? {
        var i :| && 0 <= i < |init|
                 && (forall j :: 0 <= j < i ==> init[j].Ok?)
                 && init[i] == Err(Collect(init).error);
        assert rs[i] == Err(Collect(rs).error);
      } else if rs[n].Err? {
        assert rs[n] == Err(Collect(rs).error);
      }
    }
  }

  /** One more step extends the values by its value, or fails with its error. */
  lemma CollectSnoc<T, E>(rs: seq<Result<T, E>>, i: nat)
    requires i < |rs| && Collect(rs[..i]).Ok?
    ensures Collect(rs[..i + 1]) ==
      match rs[i]
      case Err(e) => Err(e)
      case Ok(v) => Ok(Collect(rs[..i]).value + [v])
  {
    assert rs[..i + 1][..i] == rs[..i];
  }

  /** A failure among the first steps is the failure of the whole loop. */
  lemma {:induction false} CollectPrefix<T, E>(rs: seq<Result<T, E>>, n: nat)
    requires n <= |rs| && Collect(rs[..n]).Err?
    ensures Collect(rs) == Collect(rs[..n])
    decreases |rs| - n
  {
    if n < |rs| {
      var m := |rs| - 1;
      assert rs[..m][..n] == rs[..n];
      CollectPrefix(rs[..m], n);
    } else {
      assert rs[..n] == rs;
    }
  }

  lemma CollectAt<T, E>(rs: seq<Result<T, E>>, i: nat)
    requires Collect(rs).Ok? && i < |rs|
    ensures rs[i].Ok? && Collect(rs).value[i] == rs[i].value
  {
    CollectSpec(rs);
  }
}
