/** The POSIX error numbers the adapters report, and the result shapes they use.
    `OK` stands for the value 0 that the C code returns when nothing failed. */
module Errors {
  datatype Errno =
    | OK | EPERM | ENOENT | EIO | EBADF | EACCES | EBUSY | EEXIST | EXDEV | ENODEV | ENOTDIR | EISDIR
    | EINVAL | EMFILE | ENOSPC | ENAMETOOLONG | ENOTEMPTY | EOVERFLOW

  datatype Option<+T> = None | Some(value: T)

  datatype Result<+T> = Success(value: T) | Failure(error: Errno)
}
