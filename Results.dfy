/** Option and Result values, used wherever the source returns `null`/`undefined`
    or throws instead of producing a value. */
module Results {

  datatype Option<+T> = None | Some(value: T)

  /** The value of `o` as a sequence of at most one element. */
  function AsSeq<T>(o: Option<T>): (s: seq<T>)
    ensures |s| <= 1
    ensures o.Some? ==> s == [o.value]
    ensures o.None? ==> s == []
  {
    if o.Some? then [o.value] else []
  }

  datatype Result<+T, +E> = Success(value: T) | Failure(error: E)
}
