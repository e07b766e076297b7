/** The widths of the source's integer types, and the error numbers it returns. */
module Limits {
  const TWO_32: nat := 0x1_0000_0000
  const TWO_64: nat := 0x1_0000_0000_0000_0000
  const SSIZE_MAX: nat := 0x7fff_ffff_ffff_ffff

  const EPERM: int := 1
  const EIO: int := 5
  const ENXIO: int := 6
  const EACCES: int := 13
  const EINVAL: int := 22
  const EOPNOTSUPP: int := 95
  const ETIMEDOUT: int := 110
  const EALREADY: int := 114
  const EREMOTEIO: int := 121
}
