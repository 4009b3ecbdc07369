/** Failures the pipeline can raise, and the failure-compatible result type
    used to propagate them (the source raises Python exceptions instead). */
module Results {

  datatype Error =
    | MissingColumn(name: string)      // KeyError: a frame has no column of that name
    | UnsupportedOperator(op: string)  // calc: an operator tag outside '+', '-', '*', '/'
    | ZeroDivision                     // calc: Python float division by zero
    | TypeMismatch                     // calc: arithmetic on a cell that is not a number
    | IndexNotText                     // "-".join on an index half that is not a string
    | EmptyIndexApply                  // assigning the 0 x 2 frame a row-wise apply gives on no rows to one column
    | LengthMismatch                   // renaming the columns of a frame of another width
    | ScalarsNeedIndex                 // a DataFrame built from scalars only, without an index

  datatype Result<+T> = Ok(value: T) | Err(error: Error) {
    predicate IsFailure() { Err? }

    function PropagateFailure<U>(): Result<U>
      requires Err?
    {
      Err(error)
    }

    function Extract(): T
      requires Ok?
    {
      value
    }
  }

  datatype Option<+T> = None | Some(value: T)

  /** The values of `rs` in order, or the first failure among them: a loop
      whose steps can raise stops at the first step that does. */
  function Collect<T>(rs: seq<Result<T>>): (r: Result<seq<T>>)
    ensures r.Ok? <==> forall i :: 0 <= i < |rs| ==> rs[i].Ok?
    ensures r.Ok? ==> |r.value| == |rs| && forall i :: 0 <= i < |rs| ==> r.value[i] == rs[i].value
  {
    if rs == [] then Ok([])
    else
      var init := Collect(rs[..|rs| - 1]);
      if init.Err? then init
      else if rs[|rs| - 1].Err? then Err(rs[|rs| - 1].error)
      else Ok(init.value + [rs[|rs| - 1].value])
  }

  /** Collecting one more result: a failure so far stays, a new failure
      becomes the result, a new value is appended. */
  lemma CollectSnoc<T>(rs: seq<Result<T>>, n: nat)
    requires n < |rs|
    ensures Collect(rs[..n + 1]) ==
      if Collect(rs[..n]).Err? then Collect(rs[..n])
      else if rs[n].Err? then Err(rs[n].error)
      else Ok(Collect(rs[..n]).value + [rs[n].value])
  {
    assert rs[..n + 1][..n] == rs[..n];
  }

  /** The failure of the first failing result is the failure of the whole. */
  lemma {:induction false} CollectFirstErr<T>(rs: seq<Result<T>>, n: nat)
    requires n < |rs| && Collect(rs[..n]).Ok? && rs[n].Err?
    ensures Collect(rs) == Err(rs[n].error)
    decreases |rs|
  {
    if n == |rs| - 1 {
      assert rs[..n] == rs[..|rs| - 1];
    } else {
      var m := |rs| - 1;
      assert rs[..m][..n] == rs[..n];
      CollectFirstErr(rs[..m], n);
    }
  }

  /** A failed collection fails with the failure of its first failing result. */
  lemma {:induction false} CollectErr<T>(rs: seq<Result<T>>)
    requires Collect(rs).Err?
    ensures exists j :: 0 <= j < |rs| && (forall k :: 0 <= k < j ==> rs[k].Ok?) && rs[j].Err? && Collect(rs).error == rs[j].error
    decreases |rs|
  {
    var n := |rs| - 1;
    var init := rs[..n];
    if Collect(init).Err? {
      CollectErr(init);
      var j :| 0 <= j < n && (forall k :: 0 <= k < j ==> init[k].Ok?) && init[j].Err? && Collect(init).error == init[j].error;
      assert forall k :: 0 <= k <= j ==> rs[k] == init[k];
    } else {
      assert forall k :: 0 <= k < n ==> rs[k] == init[k];
    }
  }
}
