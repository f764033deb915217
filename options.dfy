/** The optional value used for nullable columns, optional request fields and query results. */
module Options {

  datatype Option<+T> = None | Some(value: T)
}
