/** Sizes that several components share. */
module Limits {
  const TWO32: nat := 0x1_0000_0000
  const TWO64: nat := 0x1_0000_0000_0000_0000
  const PAGE: nat := 0x1000
}
