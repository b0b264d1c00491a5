/** The absent-or-present value used wherever the source has `null`. */
module Options {

  datatype Option<+T> = None | Some(value: T)

}
