/** Failure-compatible results shared by every module. */
module Wrappers {
  datatype Option<+T> = None | Some(value: T)

  /** A value, or the error code the program throws instead. */
  datatype Result<+T, +E> = Ok(value: T) | Err(error: E) {
    predicate IsFailure() {
      Err?
    }

    function PropagateFailure<U>(): Result<U, E>
      requires Err?
    {
      Err(error)
    }

    function Extract(): T
      requires Ok?
    {
      value
    }
  }

  /** What a loop has collected, and what is still to come. */
  function Prefixed<T, E>(done: seq<T>, rest: Result<seq<T>, E>): Result<seq<T>, E> {
    if rest.Ok? then Ok(done + rest.value) else rest
  }

  lemma PrefixedByNothing<T, E>(rest: Result<seq<T>, E>)
    ensures Prefixed([], rest) == rest
  {
    if rest.Ok? { assert [] + rest.value == rest.value; }
  }

  lemma PrefixedTwice<T, E>(a: seq<T>, b: seq<T>, rest: Result<seq<T>, E>)
    ensures Prefixed(a, Prefixed(b, rest)) == Prefixed(a + b, rest)
  {
    if rest.Ok? { assert a + (b + rest.value) == a + b + rest.value; }
  }

  lemma NoMembers<T>(s: seq<T>)
    ensures s == [] <==> forall x <- s :: false
  {
    if s != [] { assert s[0] in s; }
  }
}
