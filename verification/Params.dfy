/** The kernel's build parameters that more than one module needs. */
module Params {
  /** Bytes per disk block. */
  const BSIZE: nat := 1024

  /** Blocks a file system operation may log. */
  const MAXOPBLOCKS: nat := 10

  /** Data blocks in the log. */
  const LOGSIZE: nat := 30
}
