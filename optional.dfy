/** Python's `None`-or-value, as returned by `dict.get` and `Query.get`. */
module Optional {

  datatype Option<T> = None | Some(value: T)

}
