/** Small value types shared by the other modules. */
module Base {

  /** An optional value: the source's nil pointer or missing row. */
  datatype Option<+T> = None | Some(value: T)

  /** No element occurs twice (the lists the source builds with `append`
      from the keys of a map). */
  predicate Distinct<T(==)>(s: seq<T>)
  {
    forall i, j :: 0 <= i < j < |s| ==> s[i] != s[j]
  }

  /** The set of elements of a list. */
  function Elems<T>(s: seq<T>): set<T>
  {
    set x | x in s
  }
}
