/** Small wrappers shared by every module of the scheduler model. */
module Common {

  /** A value that may be absent (Java `null`). */
  datatype Option<T> = None | Some(value: T)

  /** The outcome of an operation that either succeeds or throws an exception. */
  datatype Result<T, E> = Success(value: T) | Failure(error: E)

  /** A sequence without repeated elements. */
  ghost predicate Distinct<T>(s: seq<T>) {
    forall i, j :: 0 <= i < j < |s| ==> s[i] != s[j]
  }

  /**
   * Lists the elements of a finite set in an order the caller does not
   * control. It stands for iterating over a Java HashSet and for
   * `Collections.shuffle`, whose orders the model leaves open.
   */
  method Enumerate<T>(s: set<T>) returns (r: seq<T>)
    ensures |r| == |s|
    ensures forall x :: x in r <==> x in s
    ensures Distinct(r)
  {
    r := [];
    var rest := s;
    while rest != {}
      invariant rest <= s
      invariant forall x :: x in r <==> x in s && x !in rest
      invariant |r| + |rest| == |s|
      invariant Distinct(r)
      decreases rest
    {
      var x :| x in rest;
      r := r + [x];
      rest := rest - {x};
    }
  }
}
