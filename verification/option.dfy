/** The optional value used wherever the source returns `None` or a match object
    that may be missing. */
module Options {

  datatype Option<+T> = None | Some(value: T)
}
