/** Small shared definitions. */
module Collections {

  datatype Option<+T> = None | Some(value: T)

  function Elems<T>(s: seq<T>): set<T> {
    set x | x in s
  }

  ghost predicate Distinct<T>(s: seq<T>) {
    forall i, j :: 0 <= i < j < |s| ==> s[i] != s[j]
  }
}
