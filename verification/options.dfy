/** The optional value used wherever a provider may give no answer. */
module Options {

  datatype Option<+T> = None | Some(value: T)
}
