/** Machine-level types and constants shared by the loader model:
    32-bit unsigned words, bytes, C strings, the kernel's fixed limits,
    and the result/error types that record why a load was refused. */
module Base {

  /** 2^32: the modulus of C's `uint` on the 32-bit x86 target. */
  const U32: int := 0x1_0000_0000

  /** A C `uint`. */
  type u32 = x: int | 0 <= x < U32

  /** A C `char`/`uchar` as stored in a file or in memory. */
  type byte = x: int | 0 <= x < 256

  const PGSIZE: int := 4096
  /** First kernel virtual address; user memory always lies below it. */
  const KERNBASE: int := 0x8000_0000
  /** Largest number of argument strings a new image may receive. */
  const MAXARG: int := 32
  /** Bytes read after `#!` when looking for the end of the interpreter path. */
  const MAX_SHEBANG_LENGTH: int := 4096
  /** Deepest interpreter-directive nesting that is still followed. */
  const MAX_SHEBANG_DEPTH: int := 10
  /** Capacity of a process's name field, terminator included. */
  const PROC_NAME_LEN: int := 16

  const NUL: byte := 0x00
  const NEWLINE: byte := 0x0A
  const SPACE: byte := 0x20
  const BANG: byte := 0x21
  const HASH: byte := 0x23
  const SLASH: byte := 0x2F

  /** True when no byte of `s` is the C string terminator. */
  predicate NoNul(s: seq<byte>)
  {
    forall i | 0 <= i < |s| :: s[i] != NUL
  }

  /** The characters of a C string, without its terminating NUL. Its
      length plus the terminator fits in a 32-bit address space. */
  type CString = s: seq<byte> | |s| + 1 < U32 && NoNul(s) witness []

  datatype Option<T> = None | Some(value: T)

  /** The failure kinds of the loader. The kernel reports every one of
      them to the caller as the same -1; they are kept apart here so that
      each guard can be told from the others. */
  datatype Error =
    | PathNotFound
    | FileIOError
    | MalformedInterpreterDirective
    | TooManyInterpreterLevels
    | InvalidELFMagic
    | TruncatedProgramHeader
    | InvalidProgramHeader
    | AddressSpaceExhausted
    | SegmentLoadFailure
    | ArgumentCountExceeded
    | StackBuildFailure

  datatype Result<T> = Ok(value: T) | Err(error: Error)
}
