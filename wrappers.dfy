/** Option and Result, and the "collect every error, report the first" rule
    that both fan-in points of the fetch engine share. */
module Wrappers {

  datatype Option<+T> = None | Some(value: T)

  /** A Go `(value, error)` return: a non-nil error means the value is unused.
      Errors are represented by their message. */
  datatype Result<+T> = Ok(value: T) | Err(error: string)

  /** The error messages of `outs`, in order: the slice a collecting
      goroutine builds by appending every error it receives. */
  function Errors<T>(outs: seq<Result<T>>): (errs: seq<string>)
    ensures |errs| <= |outs|
  {
    if outs == [] then []
    else
      var last := outs[|outs| - 1];
      Errors(outs[..|outs| - 1]) + (if last.Err? then [last.error] else [])
  }

  /** No error is recorded exactly when every outcome succeeded, and the
      first recorded error is that of the first failed outcome. */
  lemma {:induction false} ErrorsFirst<T>(outs: seq<Result<T>>)
    ensures Errors(outs) == [] <==> forall k :: 0 <= k < |outs| ==> outs[k].Ok?
    ensures Errors(outs) != [] ==>
      exists k :: 0 <= k < |outs| && outs[k] == Err(Errors(outs)[0]) &&
        (forall j :: 0 <= j < k ==> outs[j].Ok?)
    decreases |outs|
  {
    if outs != [] {
      var init := outs[..|outs| - 1];
      var last := outs[|outs| - 1];
      ErrorsFirst(init);
      if Errors(init) != [] {
        var k :| 0 <= k < |init| && init[k] == Err(Errors(init)[0]) &&
          (forall j :: 0 <= j < k ==> init[j].Ok?);
        assert outs[k] == init[k];
      } else if last.Err? {
        assert outs[|outs| - 1] == Err(Errors(outs)[0]);
      }
    }
  }

  /** Errors grows by at most one message per received outcome. */
  lemma ErrorsAppend<T>(outs: seq<Result<T>>, o: Result<T>)
    ensures Errors(outs + [o]) == Errors(outs) + (if o.Err? then [o.error] else [])
  {
    assert (outs + [o])[..|outs|] == outs;
  }
}
