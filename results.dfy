/** Option and Result values for the error paths of the converter (Python exceptions). */
module Results {

  datatype Option<T> = None | Some(value: T)

  /** `Err` stands for an exception that the Python code raises and does not catch. */
  datatype Result<T, E> = Ok(value: T) | Err(error: E) {

    predicate IsFailure()
    {
      Err?
    }

    function PropagateFailure<U>(): Result<U, E>
      requires Err?
    {
      Err(error)
    }

    function Extract(): T
      requires Ok?
    {
      value
    }
  }

  /** Lines already appended in front of the outcome of the rest of a loop:
      an exception from the rest discards them, as a raise discards a local list. */
  function Prefixed<T, E>(acc: seq<T>, rest: Result<seq<T>, E>): (r: Result<seq<T>, E>)
    ensures r.Ok? <==> rest.Ok?
    ensures r.Ok? ==> r.value == acc + rest.value
    ensures r.Err? ==> r.error == rest.error
  {
    match rest
    case Ok(v) => Ok(acc + v)
    case Err(e) => Err(e)
  }

  lemma PrefixedNil<T, E>(rest: Result<seq<T>, E>)
    ensures Prefixed([], rest) == rest
  {
    if rest.Ok? {
      assert [] + rest.value == rest.value;
    }
  }

  lemma PrefixedAssoc<T, E>(a: seq<T>, b: seq<T>, rest: Result<seq<T>, E>)
    ensures Prefixed(a, Prefixed(b, rest)) == Prefixed(a + b, rest)
  {
    if rest.Ok? {
      assert a + (b + rest.value) == (a + b) + rest.value;
    }
  }
}
