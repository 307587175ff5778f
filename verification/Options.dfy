/** The source's optional results. */
module Options {
  datatype Option<+T> = None | Some(value: T)

  function Values<T>(s: seq<T>): seq<Option<T>> {
    seq(|s|, i requires 0 <= i < |s| => Some(s[i]))
  }
}
