/** The optional value used for JavaScript's "absent" results. */
module Optional {

  datatype Option<T> = None | Some(value: T)
}
