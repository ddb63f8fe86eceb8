/** The kernel's error numbers. */
module Errors {

  const EIO: int := 5
  const ENOMEM: int := 12
  const EFAULT: int := 14
  const EBUSY: int := 16
  const EINVAL: int := 22
  const EOPNOTSUPP: int := 95
  const ERESTARTSYS: int := 512
}
