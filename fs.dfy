/** What the loader needs from the file system: a file is the byte
    sequence of a locked inode, `readi` reads a byte range of it, and the
    log counts the file-system operations that are open. */
module Fs {
  import opened Base

  /** The contents of an inode; its size is a `uint`. */
  type File = f: seq<byte> | |f| < U32

  /** `readi(ip, dst, off, n)`: refuses (-1) when `off` is past the end of
      the file or `off + n` wraps; otherwise returns the bytes from `off`,
      cut short at the end of the file. */
  function ReadI(f: File, off: u32, n: u32): Option<seq<byte>>
  {
    if off > |f| || off + n >= U32 then None
    else Some(f[off..if off + n > |f| then |f| else off + n])
  }

  /** True when `readi` returns all `n` bytes asked for. */
  predicate FullRead(f: File, off: u32, n: u32)
  {
    ReadI(f, off, n).Some? && |ReadI(f, off, n).value| == n
  }

  /** A read is complete exactly when the whole range lies in the file,
      and then it returns that range. */
  lemma FullReadIff(f: File, off: u32, n: u32)
    ensures FullRead(f, off, n) <==> off + n <= |f|
    ensures FullRead(f, off, n) ==> ReadI(f, off, n).value == f[off..off + n]
  {
  }

  /** The file-system log: `outstanding` counts the operations between
      `begin_op` and `end_op`. */
  class Log {
    var outstanding: int

    constructor ()
      ensures outstanding == 0
    {
      outstanding := 0;
    }

    /** `begin_op`. */
    method BeginOp()
      modifies this
      ensures outstanding == old(outstanding) + 1
    {
      outstanding := outstanding + 1;
    }

    /** `end_op`. */
    method EndOp()
      modifies this
      ensures outstanding == old(outstanding) - 1
    {
      outstanding := outstanding - 1;
    }
  }
}
