/** Optional values and results with the walker's one failure kind, and the
    way a loop that raises on its first failure combines results. */
module Outcome {

  /** Python's `None` (`None`) or a present value. */
  datatype Option<+T> = None | Some(value: T)

  /** The exception the walker can raise: an `IndexError` from indexing the
      result of `str.split` on a content line that lacks the expected separator.
      `objectId` is the object whose content was being decoded, `line` the line. */
  datatype Error = IndexError(objectId: string, line: string)

  /** A value, or the exception that aborted the computation. */
  datatype Result<+T> = Ok(value: T) | Err(error: Error)

  /** A loop over `results` in order that appends each value and lets the
      first exception escape. */
  function Collect<T>(results: seq<Result<T>>): (r: Result<seq<T>>)
    ensures r.Ok? ==> |r.value| == |results|
    decreases |results|
  {
    if results == [] then Ok([])
    else
      match Collect(results[..|results| - 1])
      case Err(e) => Err(e)
      case Ok(done) =>
        match results[|results| - 1]
        case Err(e) => Err(e)
        case Ok(x) => Ok(done + [x])
  }

  /** `k` is the first position of `results` holding an exception, and it
      holds `e`. */
  ghost predicate FirstErr<T>(results: seq<Result<T>>, k: int, e: Error) {
    0 <= k < |results| && results[k] == Err(e)
    && forall j :: 0 <= j < k ==> results[j].Ok?
  }

  /** The loop succeeds exactly when every result is a value, and then
      yields those values in order; otherwise it raises the first exception. */
  lemma {:induction false} CollectAlign<T>(results: seq<Result<T>>)
    ensures var r := Collect(results);
      (r.Ok? <==> forall k :: 0 <= k < |results| ==> results[k].Ok?)
      && (r.Ok? ==> |r.value| == |results| && forall k :: 0 <= k < |results| ==> results[k] == Ok(r.value[k]))
      && (r.Err? ==> exists k :: FirstErr(results, k, r.error))
    decreases |results|
  {
    if results != [] {
      var init := results[..|results| - 1];
      var last := |results| - 1;
      CollectAlign(init);
      assert forall j :: 0 <= j < last ==> init[j] == results[j];
      var r := Collect(results);
      if Collect(init).Err? {
        var k :| FirstErr(init, k, r.error);
        assert FirstErr(results, k, r.error);
      } else if r.Err? {
        assert FirstErr(results, last, r.error);
      }
    }
  }

  /** Once the loop has raised, the rest of `results` does not matter. */
  lemma {:induction false} CollectStops<T>(results: seq<Result<T>>, n: nat)
    requires n <= |results| && Collect(results[..n]).Err?
    ensures Collect(results) == Collect(results[..n])
    decreases |results|
  {
    if n < |results| {
      var init := results[..|results| - 1];
      assert init[..n] == results[..n];
      CollectStops(init, n);
    } else {
      assert results[..n] == results;
    }
  }

  /** One more pass of the loop: the value of the next result is appended. */
  lemma CollectStep<T>(results: seq<Result<T>>, n: nat)
    requires n < |results|
    ensures Collect(results[..n + 1]) ==
      match Collect(results[..n])
      case Err(e) => Err(e)
      case Ok(done) =>
        match results[n]
        case Err(e) => Err(e)
        case Ok(x) => Ok(done + [x])
  {
    assert results[..n + 1][..n] == results[..n];
  }
}
