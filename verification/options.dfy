/** An optional value; `None` marks an outcome the C++ standard leaves undefined. */
module Options {

  datatype Option<+T> = None | Some(value: T)
}
