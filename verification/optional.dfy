/** JavaScript's "value or nothing": `null` for the edit target, `undefined` from `find`. */
module Optional {

  datatype Option<+T> = None | Some(value: T)
}
