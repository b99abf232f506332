/** The virtual-memory collaborators of the loader, over an abstract user
    address space: the bytes mapped from address 0 up to its size, the
    pages whose user-access bit has been cleared, and whether the space
    has been released. Page tables themselves are not modelled. */
module Vm {
  import opened Base
  import opened Fs

  /** `mem` extended with zero bytes up to length `n` (freshly mapped pages
      read as zero). */
  function Grown(mem: seq<byte>, n: nat): (r: seq<byte>)
    ensures |r| == if n <= |mem| then |mem| else n
    ensures r[..|mem|] == mem
    ensures forall i | |mem| <= i < |r| :: r[i] == 0
  {
    if n <= |mem| then mem else mem + seq(n - |mem|, _ => 0)
  }

  /** `mem` with `data` stored at address `va`. */
  function Write(mem: seq<byte>, va: nat, data: seq<byte>): (r: seq<byte>)
    requires va + |data| <= |mem|
    ensures |r| == |mem|
    ensures r[va..va + |data|] == data
    ensures forall i | 0 <= i < |mem| && (i < va || va + |data| <= i) :: r[i] == mem[i]
  {
    mem[..va] + data + mem[va + |data|..]
  }

  /** A write leaves every range it does not touch as it was. */
  lemma WriteKeeps(mem: seq<byte>, va: nat, data: seq<byte>, lo: nat, hi: nat)
    requires va + |data| <= |mem|
    requires lo <= hi <= |mem|
    requires hi <= va || va + |data| <= lo
    ensures Write(mem, va, data)[lo..hi] == mem[lo..hi]
  {
    var r := Write(mem, va, data);
    assert forall i | lo <= i < hi :: r[i] == mem[i];
  }

  /** True when user code may access every byte of `[va, va + n)`: the
      range is mapped and touches no page whose user bit is cleared. */
  predicate UserRange(size: nat, guard: set<nat>, va: int, n: nat)
  {
    0 <= va && va + n <= size &&
    forall p | p in guard :: va + n <= p * PGSIZE || (p + 1) * PGSIZE <= va
  }

  /** When `allocuvm(pgdir, oldsz, newsz)` maps new memory: the target is
      below the kernel, not below the old size, and within `limit`, the
      amount of memory the allocator can still supply. */
  predicate Grows(oldsz: u32, newsz: u32, limit: nat)
  {
    newsz < KERNBASE && oldsz <= newsz && newsz <= limit
  }

  /** The value `allocuvm` returns: 0 on failure, the old size when asked
      to shrink, else the new size. */
  function AllocResult(oldsz: u32, newsz: u32, limit: nat): (r: u32)
    ensures r == 0 || r == oldsz || r == newsz
    ensures Grows(oldsz, newsz, limit) ==> r == newsz
    ensures r != 0 && r != oldsz ==> Grows(oldsz, newsz, limit)
  {
    if newsz >= KERNBASE then 0
    else if newsz < oldsz then oldsz
    else if newsz > limit then 0
    else newsz
  }

  /** The bytes `loaduvm` copies: `n` bytes of the file from `off`. */
  function FileBytes(f: File, off: u32, n: u32): (r: seq<byte>)
    requires n == 0 || off + n <= |f|
    ensures |r| == n
  {
    if n == 0 then [] else f[off..off + n]
  }

  /** The resources `setupkvm` needs: whether it can allocate a page
      directory, and how far the user memory of a new space can grow. */
  datatype Machine = Machine(kvmOk: bool, limit: nat)

  /** A user address space (`pde_t *pgdir`). */
  class AddressSpace {
    var mem: seq<byte>
    var guard: set<nat>
    var freed: bool
    const limit: nat

    ghost predicate Valid()
      reads this
    {
      |mem| < KERNBASE
    }

    constructor (limit: nat)
      ensures Valid() && mem == [] && guard == {} && !freed && this.limit == limit
    {
      mem := [];
      guard := {};
      freed := false;
      this.limit := limit;
    }

    /** `allocuvm`: grows the mapped size to `newsz`, zero-filled. */
    method AllocUvm(oldsz: u32, newsz: u32) returns (r: u32)
      requires Valid()
      modifies this
      ensures Valid() && guard == old(guard) && freed == old(freed)
      ensures r == AllocResult(oldsz, newsz, limit)
      ensures mem == if Grows(oldsz, newsz, limit) then Grown(old(mem), newsz) else old(mem)
    {
      r := AllocResult(oldsz, newsz, limit);
      if Grows(oldsz, newsz, limit) {
        mem := Grown(mem, newsz);
      }
    }

    /** `loaduvm`: copies `n` bytes of `f` from `off` to the page-aligned,
        already mapped address `va`; fails when the file is too short. */
    method LoadUvm(va: u32, f: File, off: u32, n: u32) returns (ok: bool)
      requires Valid() && va % PGSIZE == 0 && va + n <= |mem|
      modifies this
      ensures Valid() && guard == old(guard) && freed == old(freed)
      ensures ok == (n == 0 || off + n <= |f|)
      ensures mem == if ok then Write(old(mem), va, FileBytes(f, off, n)) else old(mem)
    {
      ok := n == 0 || off + n <= |f|;
      if ok {
        mem := Write(mem, va, FileBytes(f, off, n));
      }
    }

    /** `copyout`: stores `data` at `va`; fails unless user code could
        write the whole range. */
    method CopyOut(va: u32, data: seq<byte>) returns (ok: bool)
      requires Valid()
      modifies this
      ensures Valid() && guard == old(guard) && freed == old(freed)
      ensures ok == UserRange(|old(mem)|, guard, va, |data|)
      ensures mem == if ok then Write(old(mem), va, data) else old(mem)
    {
      ok := UserRange(|mem|, guard, va, |data|);
      if ok {
        mem := Write(mem, va, data);
      }
    }

    /** `clearpteu`: removes user access to the mapped page holding `va`. */
    method ClearPteU(va: u32)
      requires Valid() && va < |mem|
      modifies this
      ensures Valid() && mem == old(mem) && freed == old(freed)
      ensures guard == old(guard) + {va / PGSIZE}
    {
      guard := guard + {va / PGSIZE};
    }

    /** `freevm`: releases the space. */
    method FreeVm()
      modifies this
      ensures freed && mem == old(mem) && guard == old(guard)
    {
      freed := true;
    }
  }

  /** `setupkvm`: a new, empty address space, or null when no page
      directory can be allocated. */
  method SetupKvm(m: Machine) returns (pgdir: AddressSpace?)
    ensures (pgdir != null) == m.kvmOk
    ensures pgdir != null ==> fresh(pgdir) && pgdir.Valid() && pgdir.limit == m.limit
    ensures pgdir != null ==> pgdir.mem == [] && pgdir.guard == {} && !pgdir.freed
  {
    if m.kvmOk {
      pgdir := new AddressSpace(m.limit);
    } else {
      pgdir := null;
    }
  }
}
