/** An optional value, shared by the modules that need one. */
module Optional {

  datatype Option<T> = None | Some(value: T)
}
