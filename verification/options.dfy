/** The absent-or-present value that stands in for JavaScript's `null` results. */
module Options {

  datatype Option<+T> = None | Some(value: T)

}
