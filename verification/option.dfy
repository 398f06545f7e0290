/** The result of a Python function that may return `None`. */
module Optional {

  datatype Option<T> = None | Some(value: T)
}
