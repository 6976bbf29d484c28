/** The optional value used wherever the scripts return `null`, `-1` or
    `undefined` for "nothing found". */
module Optional {
  datatype Option<T> = None | Some(value: T)
}
