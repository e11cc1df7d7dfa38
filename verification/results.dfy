/** Optional values, success-or-failure results, and the failure kinds the
    system raises (one constructor per exception it throws). */
module Results {

  datatype Option<+T> = None | Some(value: T)

  /** The exceptions the modelled code throws, named by what they mean. */
  datatype Failure =
    | NoEntityFound                       // NoEntityFoundException, answered with HTTP 404
    | NoSuchElement                       // NoSuchElementException (empty maxBy, in-memory table fixture)
    | UnknownColumnType(typeName: string) // error("Unknown column type: …")
    | UnknownStringFormat(name: string)   // StringFormat.valueOf on a name that is not a constant
    | MissingVersion(versionNumber: int)  // error("… does not have a version with number …")
    | RowNotFound                         // error("Could not find row with id: …") of the in-memory fixture

  /** The failures reading a stored column type can raise. */
  predicate DecodeFailure(f: Failure) {
    f.UnknownColumnType? || f.UnknownStringFormat?
  }

  datatype Result<+T> = Ok(value: T) | Err(failure: Failure) {

    predicate IsFailure() {
      Err?
    }

    function PropagateFailure<U>(): Result<U>
      requires Err?
    {
      Err(failure)
    }

    function Extract(): T
      requires Ok?
    {
      value
    }
  }

  /** Kotlin's `map` with a lambda that may throw: the elements are
      converted in order and the first failure aborts the whole list. */
  function MapResults<A, B>(xs: seq<A>, f: A -> Result<B>): (r: Result<seq<B>>)
    ensures r.Ok? <==> forall i :: 0 <= i < |xs| ==> f(xs[i]).Ok?
    ensures r.Ok? ==> |r.value| == |xs| && forall i :: 0 <= i < |xs| ==> f(xs[i]) == Ok(r.value[i])
    ensures r.Err? ==> exists i :: 0 <= i < |xs| && f(xs[i]) == Err(r.failure) && forall j :: 0 <= j < i ==> f(xs[j]).Ok?
  {
    if xs == [] then Ok([])
    else
      var y :- f(xs[0]);
      var rest :- MapResults(xs[1..], f);
      assert forall i :: 1 <= i < |xs| ==> xs[i] == xs[1..][i - 1];
      Ok([y] + rest)
  }
}
