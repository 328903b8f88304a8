/** The optional value used for "missing" cells and for an absent nodata declaration. */
module Options {

  datatype Option<+T> = None | Some(value: T)
}
