/** Results of the pipeline's steps. Every exception the Python code can raise on
    malformed input becomes an `Err` carrying where it happened. */
module Outcome {

  datatype Error =
    | MalformedLine(line: nat)                 // a line lacks a field the code indexes (IndexError)
    | RowWidth(row: nat)                       // a feature row does not fit the matrix (ValueError)
    | BadNumber(row: nat)                      // float() rejects an expression field (ValueError)
    | EmptyFile(name: string)                  // a value read from the first line is never bound
    | MissingFile(name: string)                // a tissue metadata file is absent (IOError)
    | BadInteger(name: string, line: nat)      // int() rejects field 0 of a metadata line (ValueError)
    | ColumnOutOfRange(tissue: string)         // a tissue column index is outside the matrix (IndexError)
    | InsufficientColumns(tissue: string)      // the tissue has fewer columns than components (AssertionError)
    | ReducerFailed(tissue: string)            // the reducer did not return an n_pcomp-wide block
    | UnknownTissue(tissue: string)            // a tissue has no entry in the column map (KeyError)
    | UndefinedName(name: string)              // the code calls a name that is never defined (NameError)

  datatype Result<T> = Ok(value: T) | Err(error: Error)

  datatype Option<T> = None | Some(value: T)

  /** The values of `rs` in order, or the first error among them: what a loop computing one
      result per step and stopping at the first exception produces. */
  function Collect<T>(rs: seq<Result<T>>): Result<seq<T>>
  {
    if rs == [] then Ok([])
    else
      match Collect(rs[..|rs| - 1])
      case Err(e) => Err(e)
      case Ok(vs) =>
        match rs[|rs| - 1]
        case Err(e) => Err(e)
        case Ok(v) => Ok(vs + [v])
  }

  /** One more step of a collecting loop. */
  lemma CollectStep<T>(rs: seq<Result<T>>, n: nat)
    requires n < |rs| && Collect(rs[..n]).Ok?
    ensures Collect(rs[..n + 1]) ==
              match rs[n]
              case Err(e) => Err(e)
              case Ok(v) => Ok(Collect(rs[..n]).value + [v])
  {
    assert rs[..n + 1][..n] == rs[..n];
  }

  /** Once a prefix fails, the whole sequence fails the same way. */
  lemma {:induction false} CollectErrSticks<T>(rs: seq<Result<T>>, n: nat)
    requires n <= |rs| && Collect(rs[..n]).Err?
    ensures Collect(rs) == Collect(rs[..n])
    decreases |rs| - n
  {
    if n < |rs| {
      assert rs[..n + 1][..n] == rs[..n];
      CollectErrSticks(rs, n + 1);
    } else {
      assert rs[..n] == rs;
    }
  }

  /** Collecting succeeds exactly when every step does, and then keeps every value in
      order; otherwise it reports the error of the first failing step. */
  lemma {:induction false} CollectMeaning<T>(rs: seq<Result<T>>)
    ensures Collect(rs).Ok? <==> forall k :: 0 <= k < |rs| ==> rs[k].Ok?
    ensures Collect(rs).Ok? ==>
              |Collect(rs).value| == |rs| && forall k :: 0 <= k < |rs| ==> rs[k] == Ok(Collect(rs).value[k])
    ensures Collect(rs).Err? ==>
              exists k :: 0 <= k < |rs| && rs[k] == Err(Collect(rs).error) && forall j :: 0 <= j < k ==> rs[j].Ok?
  {
    if rs != [] {
      var pre := rs[..|rs| - 1];
      CollectMeaning(pre);
      assert forall j :: 0 <= j < |pre| ==> pre[j] == rs[j];
      if Collect(pre).Err? {
        var k :| 0 <= k < |pre| && pre[k] == Err(Collect(pre).error) && forall j :: 0 <= j < k ==> pre[j].Ok?;
        assert rs[k] == pre[k];
      }
    }
  }
}
