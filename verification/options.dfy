/** An optional value: the model's stand-in for `undefined`, a failed lookup
    or a thrown error that the caller turns into a message. */
module Options {

  datatype Option<+T> = None | Some(value: T)
}
