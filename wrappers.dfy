/** The optional value that Rust's `Option` provides to the finders. */
module Wrappers {
  datatype Option<+T> = None | Some(value: T)

  /** The zero- or one-element sequence holding the value of `o`. */
  function ToSeq<T>(o: Option<T>): (s: seq<T>)
    ensures |s| <= 1
    ensures o.None? ==> s == []
    ensures o.Some? ==> s == [o.value]
  {
    if o.Some? then [o.value] else []
  }
}
