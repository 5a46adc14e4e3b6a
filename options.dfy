/** The optional-value wrapper used throughout the model: JavaScript's `null`,
    `undefined` and `NaN` results become `None`. */
module Options {
  datatype Option<+T> = None | Some(value: T)
}
