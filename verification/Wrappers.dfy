/** Shared vocabulary. */
module Wrappers {

  datatype Option<+T> = None | Some(value: T)

  /** A value, or the reason there is none. */
  datatype Attempt<+T, +E> = Ok(value: T) | Err(error: E) {
    predicate IsFailure() { Err? }
    function PropagateFailure<U>(): Attempt<U, E>
      requires Err?
    {
      Err(error)
    }
    function Extract(): T
      requires Ok?
    {
      value
    }
  }

  /** The elements of a list. */
  function SetOf<T>(s: seq<T>): set<T> { set x | x in s }

  /** A subset is no larger. */
  lemma SubsetSize<T>(a: set<T>, b: set<T>)
    requires a <= b
    ensures |a| <= |b|
  {
    assert b == a + (b - a);
  }
}
