/** Error numbers of libc/src/include/errno.h. */
module Errno {
  const EINVAL: int := 2
  const EFAULT: int := 6
  const EIO: int := 11
  const EAGAIN: int := 12
  const E2BIG: int := 13
  const ENOMEM: int := 20
  const EOVERFLOW: int := 24
  const EINTR: int := 25
  const ENODEV: int := 26
}
