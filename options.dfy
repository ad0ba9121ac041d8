/** The optional value used for empty histogram cells, the finish time and a store lookup. */
module Options {

  datatype Option<+T> = None | Some(value: T)
}
