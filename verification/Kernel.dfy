/** What the whole kernel shares: the page size and the error codes (include/errno.h, hal). */
module Kernel {
  const SIZE_PAGE: nat := 0x1000

  /** Slots of the smallest amap: (512 - sizeof(amap_t)) / sizeof(anon_t *), about. */
  const AMAP_CHUNK: nat := 120

  const EOK: int := 0
  const EINTR: int := -4
  const EBADF: int := -9
  const ENOMEM: int := -12
  const EEXIST: int := -17
  const EINVAL: int := -22
  const ENFILE: int := -23
  const ETIME: int := -37

  function Min(a: nat, b: nat): nat {
    if a < b then a else b
  }
}
