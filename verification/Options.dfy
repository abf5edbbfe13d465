/** The optional results of the codecs: `None` is a refusal. */
module Options {
  datatype Option<+T> = None | Some(value: T)
}
