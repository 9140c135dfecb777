/**
 * A JavaScript value that may be missing. In the editor a number is missing when a field is
 * `undefined` (a variable that has not been reconciled yet) or when `parseFloat` gives NaN.
 */
module Options {

  /** `None` is the missing case; `Some(value)` carries a present value. */
  datatype Option<T> = None | Some(value: T)
}
