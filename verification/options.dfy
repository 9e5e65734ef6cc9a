/** A value that may be absent: the model's stand-in for Python's `None`
    and for "no match found". */
module Options {

  datatype Option<+T> = None | Some(value: T)

}
