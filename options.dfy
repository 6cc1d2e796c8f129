/** An optional value, for the results of reading text back. */
module Options {

  datatype Option<T> = None | Some(value: T)
}
