/** The optional value used for every XML attribute or element that may be absent (Ruby's nil). */
module Optional {

  datatype Option<+T> = None | Some(value: T)
}
