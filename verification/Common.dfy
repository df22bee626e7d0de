/** Names shared by every part of the model. */
module Common {

  /** A C `char`: one byte. */
  type Byte = c: char | c as int < 256

  const NUL: Byte := '\0'
  const LF: Byte := '\n'
  const CR: Byte := '\r'
  const SPACE: Byte := ' '

  datatype Option<+T> = None | Some(value: T)

  function Min(a: int, b: int): int {
    if a < b then a else b
  }
}
