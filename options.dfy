/** A value that may be absent: `undefined`/`null`/`NaN` on the JavaScript side. */
module Options {

  datatype Option<+T> = None | Some(value: T)
}
