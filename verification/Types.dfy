/** Integer widths, error numbers and limits shared by every layer of the semaphore service. */
module Types {

  type Byte = x: int | 0 <= x < 0x100
  type U16 = x: int | 0 <= x < 0x1_0000
  type I16 = x: int | -0x8000 <= x < 0x8000
  type U32 = x: int | 0 <= x < 0x1_0000_0000
  type I32 = x: int | -0x8000_0000 <= x < 0x8000_0000
  type U64 = x: int | 0 <= x < 0x1_0000_0000_0000_0000
  type I64 = x: int | -0x8000_0000_0000_0000 <= x < 0x8000_0000_0000_0000

  const INT_MAX: int := 0x7fff_ffff
  const I64_MAX: int := 0x7fff_ffff_ffff_ffff

  const EPERM: I32 := 1
  const ENOENT: I32 := 2
  const EINTR: I32 := 4
  const EAGAIN: I32 := 11
  const EEXIST: I32 := 17
  const EINVAL: I32 := 22
  const ENOSPC: I32 := 28
  const EPIPE: I32 := 32
  const ERANGE: I32 := 34
  const ENOSYS: I32 := 38
  const EPROTO: I32 := 71
  const EOVERFLOW: I32 := 75
  const EMSGSIZE: I32 := 90
  const ECONNRESET: I32 := 104

  const IPC_PRIVATE: I32 := 0
  const IPC_CREAT: int := 0x200
  const IPC_EXCL: int := 0x400
  const IPC_NOWAIT: int := 0x800
  const SEM_UNDO: int := 0x1000

  const MAX_SETS: nat := 128
  const MAX_PER_SET: nat := 512
  const MAX_VALUE: int := 32767
  const MAX_UNDO: nat := 4096
  const MAX_GENERATION: int := 0x7fff
  const MAX_WATCHERS: nat := 1024
  const OP_BLOCKED: I32 := 1

  datatype Option<+T> = None | Some(value: T)

  /** Whether the single-bit mask `bit` is set in `flags`, in two's complement. */
  predicate Has(flags: int, bit: int)
    requires bit > 0
  {
    (flags / bit) % 2 == 1
  }
}
