/** The optional values, results and limits the other modules share. */
module Wrappers {

  datatype Option<+T> = None | Some(value: T)

  /** `Err` stands for a thrown error. */
  datatype Result<+T, +E> = Ok(value: T) | Err(error: E)

  /** `Number.MAX_SAFE_INTEGER` */
  const MAX_SAFE_INTEGER := 0x1F_FFFF_FFFF_FFFF
}
