/**
 Machine integer widths, the optional and fallible wrappers, and the crate's
 error type, shared by the reader and the byte-unit helper.
 */
module Types {

  const U32_LIMIT: int := 0x1_0000_0000
  const U64_LIMIT: int := 0x1_0000_0000_0000_0000

  // The newtype bounds are literals on purpose: a named constant in the
  // constraint makes every range check unfold it, which the larger proofs
  // about 24-field records cannot afford.
  newtype byte = x: int | 0 <= x < 256
  newtype u32 = x: int | 0 <= x < 0x1_0000_0000
  newtype u64 = x: int | 0 <= x < 0x1_0000_0000_0000_0000

  datatype Option<+T> = None | Some(value: T)

  /** The crate-wide error. `LinkStatsError` is the variant the link-statistics
      decoder constructs; it carries the length it wanted and the length it got
      instead of the formatted message. */
  datatype Error =
    | Sys(errno: int)
    | Other(msg: string)
    | LinkStatsError(expected: nat, actual: nat)

  datatype Result<+T> = Ok(value: T) | Err(error: Error)
}
