/** The error numbers the kernel returns, negated. */
module Errno {
  const ENOENT: int := 2
  const EBADF: int := 9
  const EACCES: int := 13
  const EISDIR: int := 21
  const EINVAL: int := 22
  const EMFILE: int := 24
}
