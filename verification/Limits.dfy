/** Limits of the source's integer types. */
module Limits {
  /** The greatest ULONG. */
  const MAXULONG := 0xffff_ffff
}
