/** The usual optional value: used for the nullable columns of a row, for
    regular-expression groups that did not take part in a match, and for a
    date phrase the date parser could not read. */
module Options {
  datatype Option<+T> = None | Some(value: T)
}
