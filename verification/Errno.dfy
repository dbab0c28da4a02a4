/** The error numbers the file system throws (WASI numbering). */
module Errno {
  const EBUSY: nat := 10
  const EEXIST: nat := 20
  const EINVAL: nat := 28
  const EISDIR: nat := 31
  const ELOOP: nat := 32
  const ENOENT: nat := 44
  const ENOTDIR: nat := 54
  const ENOTEMPTY: nat := 55

  /** Not an error number: JavaScript's own TypeError, thrown through the file system's code. */
  const TYPE_ERROR: nat := 1000
}
