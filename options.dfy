/** An optional value, used where a Java field or result may be absent. */
module Options {

  datatype Option<+T> = None | Some(value: T)
}
