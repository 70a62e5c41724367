/** Results that may be absent or may carry an error. */
module Wrappers {

  datatype Option<+T> = None | Some(value: T)

  datatype Result<+T> = Ok(value: T) | Err(message: string)

  const TWO_TO_64 := 0x1_0000_0000_0000_0000
}
