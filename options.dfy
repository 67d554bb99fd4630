/** An optional value: JavaScript's `null` / Python's `None`, or a present value. */
module Options {

  datatype Option<+T> = None | Some(value: T)
}
