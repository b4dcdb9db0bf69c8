/** Shapes shared by every package of the model: optional values, Go's
    (value, error) pairs and Go slices, which tell a nil slice from an
    empty one when they are marshalled (`null` versus `[]`). */
module Common {

  datatype Option<+T> = None | Some(value: T)

  /** The result of a call that either yields a value or fails with an
      error message. */
  datatype Result<+T> = Ok(value: T) | Err(error: string)

  /** A Go `(T, error)` return: the value is returned on the error path too
      (often "" or "fail"), so both halves are kept. */
  datatype Ret<+T> = Ret(value: T, err: Option<string>)

  /** A Go slice. `Nil` is the zero value of a slice variable; `append` on it
      yields a non-nil slice. */
  datatype Slice<+T> = Nil | Slice(elems: seq<T>) {

    function Items(): seq<T>
    {
      if Nil? then [] else elems
    }

    /** Go's `append(s, x)`. */
    function Append(x: T): (s: Slice<T>)
      ensures s.Slice? && s.Items() == Items() + [x]
    {
      Slice(Items() + [x])
    }
  }
}
