/** Python's `None`-or-value, as used for `headers` in the table extractor and for
    "no match here" in the regular-expression scanners. */
module Options {
  datatype Option<+T> = None | Some(value: T)
}
