/** The error numbers of include/asm/errno.h that the modelled functions return, negated. */
module Errno {
  const E2BIG: int := 7
  const EINVAL: int := 22
  const ERANGE: int := 34
  const EOVERFLOW: int := 75
}
