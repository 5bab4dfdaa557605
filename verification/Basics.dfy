/** Types the other modules share. */
module Basics {

  const HOME_PATH := "root"
  const P2S_SIZE_DATA := 8 * 1024

  type Byte = b: int | 0 <= b < 256

  datatype Option<T> = None | Some(value: T)
}
