/** Column values, with one equality on rendered values. */
module Values {
  datatype Value = Null | Text(s: string)

  datatype Option<+T> = None | Some(value: T)
}
