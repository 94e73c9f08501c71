/** The error numbers both data structures return, negated. */
module Errno {
  const ENOMEM: int := 12
  const EEXIST: int := 17
  const ENOSPC: int := 28
}
