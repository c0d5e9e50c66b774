/** The usual Some/None wrapper, used where the script produces `undefined`
    or decides not to act. */
module Optional {
  datatype Option<+T> = None | Some(value: T)
}
