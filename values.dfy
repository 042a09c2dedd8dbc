/** The values that cross the authentication API. The source is Python, so an
    argument may be None, a str, an int (the database's integer ids), or any
    other object, which `Other` stands for by an arbitrary tag. */
module Values {

  datatype Option<+T> = None | Some(value: T)

  /** A Python value as seen by the `is None` and `type(x) != str` tests. */
  datatype Value = NoneValue | Str(text: string) | Int(number: int) | Other(tag: int)

  /** One octet of a byte string. */
  type Byte = x: int | 0 <= x < 256
}
