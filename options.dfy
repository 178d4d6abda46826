/** The nullable value of the source: a tag number, or null. */
module Options {

  datatype Option<+T> = None | Some(value: T)
}
