/** Small shared vocabulary: optional values, results carrying the
    failures the profiler can raise, and duplicate-freedom of sequences. */
module Basics {

  datatype Option<T> = None | Some(value: T)

  /** The failures raised by the profiler:
      - InvalidRow, InvalidCol: the bounds assertions of well addressing;
      - ShapeMismatch: the row-major list cannot be reshaped to the format;
      - UnknownPlate: a plate id absent from the registry (a dictionary lookup);
      - EmptyTimeline: the lineage tree asked for the first timepoint of no events. */
  datatype Error = InvalidRow | InvalidCol | ShapeMismatch | UnknownPlate | EmptyTimeline

  datatype Result<T> = Ok(value: T) | Err(error: Error)

  /** No element occurs twice. */
  predicate NoDup<T(==)>(s: seq<T>) {
    forall i, j :: 0 <= i < j < |s| ==> s[i] != s[j]
  }

  /** set(s): the elements of a sequence. */
  function Elems<T(!new)>(s: seq<T>): set<T> {
    set x | x in s
  }

  /** Indexing a concatenation indexes one of its parts. */
  lemma ConcatIndex<T>(a: seq<T>, b: seq<T>, i: nat)
    requires i < |a| + |b|
    ensures (a + b)[i] == if i < |a| then a[i] else b[i - |a|]
  {
  }
}
