/** Optional values: Python's `None`-or-value, and lookups that may find nothing. */
module Wrappers {

  datatype Option<+T> = None | Some(value: T)

  /** The optional value as a sequence of zero or one elements, ready to be concatenated. */
  function AsSeq<T>(o: Option<T>): (s: seq<T>)
    ensures o.None? <==> s == []
    ensures o.Some? ==> s == [o.value]
  {
    match o case Some(v) => [v] case None => []
  }
}
