/** A value that may be absent: the model's stand-in for the NULL pointers and
    "not configured" settings of the C program. */
module Common {

  datatype Option<+T> = None | Some(value: T)
}
