/** Kernel-side vocabulary shared by the three character devices: bytes, the
    C `int`, the error numbers the drivers return (negated), and the user-copy
    primitives abstracted as a transfer that either succeeds or faults. */
module Kernel {

  /** A byte of a kernel buffer or of a user region (`char` / `u8`). */
  type Byte = bv8

  /** The C `int`: 32-bit two's complement. */
  type Int32 = x: int | -0x8000_0000 <= x < 0x8000_0000

  /** Linux error numbers; a driver entry point returns them negated. */
  const EFAULT: int := 14
  const EBUSY: int := 16
  const EINVAL: int := 22

  datatype Option<T> = None | Some(value: T)

  /** The kernel's `min` on `size_t` operands. */
  function Min(a: nat, b: nat): (m: nat)
    ensures m <= a && m <= b && (m == a || m == b)
  {
    if a <= b then a else b
  }

  /** Whether `copy_to_user` / `copy_from_user` of `n` bytes returns 0
      ("nothing left uncopied"). `userOk` says whether the caller's user
      region is accessible; a zero-length copy touches no user memory and
      always succeeds. */
  predicate CopySucceeds(n: nat, userOk: bool)
  {
    n == 0 || userOk
  }

  /** What `snprintf(dst, room, text)` stores: at most `room - 1` characters
      of `text` and a terminating NUL; nothing at all when `room` is 0. */
  function SnprintfImage(text: seq<Byte>, room: nat): (img: seq<Byte>)
    ensures |img| <= room
    ensures room > 0 ==> |img| == Min(|text|, room - 1) + 1 && img[|img| - 1] == 0
    ensures room > 0 ==> img[..|img| - 1] == text[..|img| - 1]
    ensures room == 0 ==> img == []
  {
    if room == 0 then [] else text[..Min(|text|, room - 1)] + [0]
  }
}
