/** A value that may be absent: the model's stand-in for `std::string::npos`
    and for "no row found" / "nothing to insert". */
module Optional {

  datatype Option<+T> = None | Some(value: T)

  /** The zero- or one-element sequence holding the value, if any. */
  function ToSeq<T>(o: Option<T>): seq<T>
  {
    match o
    case None => []
    case Some(v) => [v]
  }
}
