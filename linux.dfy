/** Constants and value types of the Linux system-call interface that the wrappers
    inspect: x86-64 errno numbers, the C integer widths that matter, and the raw
    reply of a system call (its return value, and errno when that is -1). */
module Linux {

  // errno values (asm-generic/errno-base.h and asm-generic/errno.h)
  const EPERM := 1
  const ENOENT := 2
  const EINTR := 4
  const EIO := 5
  const EBADF := 9
  const EAGAIN := 11
  const ENOMEM := 12
  const EACCES := 13
  const EFAULT := 14
  const EEXIST := 17
  const EINVAL := 22
  const ENFILE := 23
  const EMFILE := 24
  const ENOSPC := 28
  const EPIPE := 32
  const ENAMETOOLONG := 36
  const ELOOP := 40
  const ENOTSOCK := 88
  const EDESTADDRREQ := 89
  const EMSGSIZE := 90
  const EOPNOTSUPP := 95
  const ECONNRESET := 104
  const ENOBUFS := 105
  const EISCONN := 106
  const ENOTCONN := 107
  const ECONNREFUSED := 111

  // C integer ranges on a 64-bit target
  const I32Min := -0x8000_0000
  const I32Max := 0x7fff_ffff
  const U32Max := 0xffff_ffff
  const I64Min := -0x8000_0000_0000_0000
  const I64Max := 0x7fff_ffff_ffff_ffff
  const U64Max := 0xffff_ffff_ffff_ffff

  type byte = b: int | 0 <= b < 0x100
  type u16 = x: int | 0 <= x < 0x1_0000
  type u32 = x: int | 0 <= x <= U32Max
  type u64 = x: int | 0 <= x <= U64Max

  /** What a system call reported: its return value and, when that is -1, errno. */
  datatype Syscall = Syscall(result: int, errno: int)

  /** ASCII text as bytes. */
  function Ascii(s: string): (r: seq<byte>)
    requires forall i | 0 <= i < |s| :: s[i] < 128 as char
    ensures |r| == |s|
    ensures forall i | 0 <= i < |s| :: r[i] == s[i] as int
  {
    seq(|s|, i requires 0 <= i < |s| => s[i] as int)
  }
}
