/** The optional value the model returns where the source returns `bool` and
    fills an out-parameter only on success. */
module Options {

  datatype Option<T> = None | Some(value: T)
}
