/** The usual optional-value wrapper, used for "what was handed to a callback, if anything". */
module Options {
  datatype Option<T> = None | Some(value: T)
}
