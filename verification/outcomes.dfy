/** Failure-carrying results shared by every part of the model.

    The Python code reports failures by raising exceptions; here each raise site
    becomes an `Error` value carried by `Result.Err`, so that a caller has to look
    at it.  `Option` stands for a value that may be absent (a version file that
    cannot be opened, a release response without an `assets` key). */
module Outcomes {

  datatype Option<+T> = None | Some(value: T) {

    predicate IsFailure() {
      None?
    }

    function PropagateFailure<U>(): Option<U>
      requires None?
    {
      None
    }

    function Extract(): T
      requires Some?
    {
      value
    }
  }

  /** The exceptions the core can raise, one constructor per raise site. */
  datatype Error =
    | VersionFileMissing(dir: string)     // open(<dir>/version) or decoding its bytes fails
    | TagFieldMissing(dir: string)        // content.split(" ")[1] raises IndexError
    | PublishDateInvalid(dir: string)     // int(content.split(" ")[0]) raises ValueError
    | DateStringInvalid(date: string)     // datetime.strptime raises ValueError
    | TimestampOutOfRange(date: string)   // dt.timestamp() raises ValueError: year out of range
    | ReleaseNotFound(tag: string)        // release["assets"] raises KeyError
    | ArchiveNotStaged(archive: string)   // tarfile.open on a file that was never downloaded
    | AlreadyInstalled                    // ProtonVersionAlreadyInstalledException
    | NotInstalled                        // ProtonVersionIsNotInstalledException

  datatype Result<+T> = Ok(value: T) | Err(error: Error) {

    predicate IsFailure() {
      Err?
    }

    function PropagateFailure<U>(): Result<U>
      requires Err?
    {
      Err(error)
    }

    function Extract(): T
      requires Ok?
    {
      value
    }
  }

  /** A loop that applies `f` to every element in order and stops at the first
      element that raises: the results of all of them, or the first error. */
  function AllOk<A, B>(xs: seq<A>, f: A -> Result<B>): (r: Result<seq<B>>)
    ensures r.Ok? <==> forall i :: 0 <= i < |xs| ==> f(xs[i]).Ok?
    ensures r.Ok? ==> |r.value| == |xs| && forall i :: 0 <= i < |xs| ==> f(xs[i]) == Ok(r.value[i])
    ensures r.Err? ==> exists i :: 0 <= i < |xs| && f(xs[i]) == Err(r.error)
                                   && forall j :: 0 <= j < i ==> f(xs[j]).Ok?
  {
    if |xs| == 0 then Ok([])
    else
      var first :- f(xs[0]);
      var tail := AllOk(xs[1..], f);
      assert forall i :: 1 <= i < |xs| ==> xs[i] == xs[1..][i - 1];
      if tail.Err? then
        assert exists i :: 0 <= i < |xs| && f(xs[i]) == Err(tail.error)
                           && forall j :: 0 <= j < i ==> f(xs[j]).Ok? by {
          var k :| 0 <= k < |xs[1..]| && f(xs[1..][k]) == Err(tail.error)
                   && forall j :: 0 <= j < k ==> f(xs[1..][j]).Ok?;
          assert f(xs[k + 1]) == Err(tail.error);
        }
        Err(tail.error)
      else
        Ok([first] + tail.value)
  }
}
