/** Optional values, used for the callback a widget event may fire and for
    looking a note up by id. */
module Wrappers {

  datatype Option<+T> = None | Some(value: T)

  /** The zero-or-one element sequence holding the value of `o`, if any. */
  function ToSeq<T>(o: Option<T>): (s: seq<T>)
    ensures |s| <= 1
    ensures o.Some? <==> |s| == 1
    ensures o.Some? ==> s[0] == o.value
  {
    match o
    case None => []
    case Some(v) => [v]
  }
}
