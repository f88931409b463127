/** Sizes of a 64-bit machine that several components share. */
module Limits {
  /** SIZE_T_CEILING: SSIZE_T_MAX - 16 */
  const SIZE_T_CEILING: nat := 0x7fff_ffff_ffff_ffff - 16

  /** malloc_pagesize */
  const PAGE_SIZE: nat := 4096
}
