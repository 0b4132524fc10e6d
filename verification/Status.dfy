/** The error numbers of the kernel, of which functions return the negation,
    and results that may be missing. */
module Status {
  const EIO: int := 1
  const EINVAGR: int := 2
  const ENOMEM: int := 3
  const EBADPATH: int := 4
  const EISTKN: int := 8

  datatype Option<T> = None | Some(value: T)
}
