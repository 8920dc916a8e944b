/** Vocabulary of the kernel interfaces: error numbers, the page size, an optional value. */
module Kernel {
  datatype Option<T> = None | Some(value: T)

  const EPERM: int := 1
  const ENOENT: int := 2
  const ENOMEM: int := 12
  const EEXIST: int := 17
  const EINVAL: int := 22

  const PAGE_SIZE: nat := 4096
}
