/** An optional value, the result of the parsers that invert the board's formatters. */
module Options {
  datatype Option<+T> = None | Some(value: T)
}
