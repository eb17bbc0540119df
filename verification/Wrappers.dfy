/** A value that may be missing, and the laws of sequences the proofs about streams use. */
module Wrappers {

  datatype Option<T> = None | Some(value: T)

  lemma Associates<T>(a: seq<T>, b: seq<T>, c: seq<T>)
    ensures a + b + c == a + (b + c)
  {
  }

  /** One list after the other, if both are there. */
  function Join<T>(a: Option<seq<T>>, b: Option<seq<T>>): Option<seq<T>> {
    if a.Some? && b.Some? then Some(a.value + b.value) else None
  }

  lemma JoinAssociates<T>(a: Option<seq<T>>, b: Option<seq<T>>, c: Option<seq<T>>)
    ensures Join(Join(a, b), c) == Join(a, Join(b, c))
  {
    if a.Some? && b.Some? && c.Some? {
      Associates(a.value, b.value, c.value);
    }
  }

  lemma JoinNothing<T>(a: Option<seq<T>>)
    ensures Join(a, Some([])) == a && Join(Some([]), a) == a
  {
    if a.Some? {
      assert a.value + [] == a.value && [] + a.value == a.value;
    }
  }
}
