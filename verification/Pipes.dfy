/** The two pipes that wake the loop. */
module Pipes {
  /** What the loop reads from a pipe at once, at most. */
  const READ_SIZE: nat := 8
}
