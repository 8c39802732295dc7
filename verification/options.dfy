/** A value that may be absent: a missing row, `null`, or a JavaScript `NaN`. */
module Options {

  datatype Option<+T> = None | Some(value: T)
}
