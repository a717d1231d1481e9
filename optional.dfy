/** An optional value, standing for Python's `None` or a found item. */
module Optional {

  datatype Option<T> = None | Some(value: T)
}
