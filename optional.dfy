/** The value-or-nothing type used wherever the source returns `null`,
    `undefined` or `NaN` instead of a value. */
module Optional {

  datatype Option<+T> = None | Some(value: T)
}
