/** An optional value: a prop or record key that may be absent. */
module Options {

  datatype Option<+T> = None | Some(value: T)
}
