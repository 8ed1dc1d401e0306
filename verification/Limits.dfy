// Sizes of the kernel's tables that several parts share.
module Limits {
  const MAX_PROCS: nat := 8
}
