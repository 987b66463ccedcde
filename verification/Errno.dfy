/** The kernel's error numbers the driver returns. */
module Errno {
  const EAGAIN: int := 11
  const ENOMEM: int := 12
  const EACCES: int := 13
  const EFAULT: int := 14
  const EINVAL: int := 22
}
