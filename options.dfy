/** An optional value: `None` stands for a JavaScript exception or an absent field. */
module Options {
  datatype Option<+T> = None | Some(value: T)
}
