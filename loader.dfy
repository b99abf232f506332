/** The program-header loop of the loader (exec.c, lines 109-125): every entry of
    the table is read; loadable ones are checked, the address space is
    grown to cover them and their file bytes are copied in. Line numbers
    in this module refer to exec.c. */
module Loader {
  import opened Base
  import opened Arith
  import opened Elf
  import opened Fs
  import opened Vm

  /** The size the loop has reached (`sz`) and the bytes mapped so far. */
  datatype LoadState = LoadState(sz: u32, mem: seq<byte>)

  /** What the loop keeps true of its state: the mapped bytes are exactly
      `sz` long and lie below the kernel. */
  predicate Consistent(st: LoadState)
  {
    |st.mem| == st.sz && st.sz < KERNBASE
  }

  /** The file offset of entry `i`: `phoff + i * sizeof(ph)`, wrapping on
      32 bits as the loop's `off += sizeof(ph)` does. */
  function PhOffset(eh: ElfHeader, i: nat): u32
  {
    (eh.phoff + i * PROGHDR_SIZE) % U32
  }

  lemma PhOffsetNext(eh: ElfHeader, i: nat)
    ensures PhOffset(eh, i + 1) == Add32(PhOffset(eh, i), PROGHDR_SIZE)
  {
    var x := eh.phoff + i * PROGHDR_SIZE;
    assert x + PROGHDR_SIZE == eh.phoff + (i + 1) * PROGHDR_SIZE;
    assert x == (x / U32) * U32 + x % U32;
  }

  /** Entry `i` of the table, when `readi` returns all of its bytes. */
  function EntryAt(f: File, eh: ElfHeader, i: nat): Option<ProgHeader>
  {
    var r := ReadI(f, PhOffset(eh, i), PROGHDR_SIZE);
    if r.Some? && |r.value| == PROGHDR_SIZE then Some(DecodeProgHeader(r.value)) else None
  }

  /** One loadable entry (lines 115-124): the size checks, growth of the
      space to `vaddr + memsz`, the alignment check (after the growth) and
      the copy of the segment's file bytes. */
  function LoadSegment(ph: ProgHeader, f: File, limit: nat, st: LoadState): (r: Result<LoadState>)
    requires Consistent(st)
    ensures r.Ok? ==> Consistent(r.value) && st.sz <= r.value.sz
  {
    AddOverflowTest(ph.vaddr, ph.memsz);
    if ph.memsz < ph.filesz then Err(InvalidProgramHeader)
    else if Add32(ph.vaddr, ph.memsz) < ph.vaddr then Err(InvalidProgramHeader)
    else
      var end := Add32(ph.vaddr, ph.memsz);
      var sz := AllocResult(st.sz, end, limit);
      if sz == 0 then Err(AddressSpaceExhausted)
      else if ph.vaddr % PGSIZE != 0 then Err(InvalidProgramHeader)
      else
        var mem := if Grows(st.sz, end, limit) then Grown(st.mem, end) else st.mem;
        if !(ph.filesz == 0 || ph.off + ph.filesz <= |f|) then Err(SegmentLoadFailure)
        else Ok(LoadState(sz, Write(mem, ph.vaddr, FileBytes(f, ph.off, ph.filesz))))
  }

  /** Which entries are refused and why: a size violation or a wrapping end
      is an invalid header; a misaligned start is caught only after the
      growth, so an exhausted allocator is reported first; a segment is
      loaded exactly when it is valid, the space can grow to its end and
      the file holds its bytes, and it then lies below the new size. */
  lemma LoadSegmentChecks(ph: ProgHeader, f: File, limit: nat, st: LoadState)
    requires Consistent(st)
    ensures var r := LoadSegment(ph, f, limit, st);
      ph.memsz < ph.filesz || ph.vaddr + ph.memsz >= U32 ==> r == Err(InvalidProgramHeader)
    ensures var r := LoadSegment(ph, f, limit, st);
      ph.filesz <= ph.memsz && ph.vaddr + ph.memsz < U32 && ph.vaddr % PGSIZE != 0 ==>
      r == Err(if AllocResult(st.sz, ph.vaddr + ph.memsz, limit) == 0
               then AddressSpaceExhausted else InvalidProgramHeader)
    ensures var r := LoadSegment(ph, f, limit, st);
      r.Ok? <==> SegmentValid(ph) && AllocResult(st.sz, ph.vaddr + ph.memsz, limit) != 0
                 && (ph.filesz == 0 || ph.off + ph.filesz <= |f|)
    ensures var r := LoadSegment(ph, f, limit, st);
      r.Ok? ==> ph.vaddr + ph.memsz <= r.value.sz
  {
    AddOverflowTest(ph.vaddr, ph.memsz);
  }

  /** A loaded segment holds its file bytes at `vaddr`; the rest of the
      newly mapped memory reads as zero, and the memory mapped before is
      unchanged outside the segment's file image. */
  lemma LoadSegmentContents(ph: ProgHeader, f: File, limit: nat, st: LoadState)
    requires Consistent(st) && LoadSegment(ph, f, limit, st).Ok?
    ensures var m := LoadSegment(ph, f, limit, st).value.mem;
      ph.vaddr + ph.filesz <= |m| && m[ph.vaddr..ph.vaddr + ph.filesz] == FileBytes(f, ph.off, ph.filesz)
    ensures var m := LoadSegment(ph, f, limit, st).value.mem;
      forall a | st.sz <= a < |m| && !(ph.vaddr <= a < ph.vaddr + ph.filesz) :: m[a] == 0
    ensures var m := LoadSegment(ph, f, limit, st).value.mem;
      forall a | 0 <= a < st.sz && !(ph.vaddr <= a < ph.vaddr + ph.filesz) :: m[a] == st.mem[a]
  {
    AddOverflowTest(ph.vaddr, ph.memsz);
    var end := ph.vaddr + ph.memsz;
    var mem := if Grows(st.sz, end, limit) then Grown(st.mem, end) else st.mem;
    assert LoadSegment(ph, f, limit, st).value.mem == Write(mem, ph.vaddr, FileBytes(f, ph.off, ph.filesz));
  }

  /** One pass of the loop body for a header read in full: entries that are
      not loadable leave the state as it is. */
  function Step(ph: ProgHeader, f: File, limit: nat, st: LoadState): (r: Result<LoadState>)
    requires Consistent(st)
    ensures r.Ok? ==> Consistent(r.value) && st.sz <= r.value.sz
  {
    if ph.kind != ELF_PROG_LOAD then Ok(st) else LoadSegment(ph, f, limit, st)
  }

  /** The loop from entry `i` on: a short read ends it with an error. */
  function LoadFrom(f: File, eh: ElfHeader, limit: nat, i: nat, st: LoadState): (r: Result<LoadState>)
    requires Consistent(st)
    ensures r.Ok? ==> Consistent(r.value) && st.sz <= r.value.sz
    decreases eh.phnum - i
  {
    if i >= eh.phnum then Ok(st)
    else if EntryAt(f, eh, i).None? then Err(TruncatedProgramHeader)
    else match Step(EntryAt(f, eh, i).value, f, limit, st)
      case Err(e) => Err(e)
      case Ok(st') => LoadFrom(f, eh, limit, i + 1, st')
  }

  /** The whole loop, from `sz = 0` and a fresh address space. */
  function LoadImage(f: File, eh: ElfHeader, limit: nat): Result<LoadState>
  {
    LoadFrom(f, eh, limit, 0, LoadState(0, []))
  }

  /** Entry `j` was read in full and, if loadable, is valid and ends at or
      below `sz`. */
  predicate EntryOk(f: File, eh: ElfHeader, j: nat, sz: nat)
  {
    match EntryAt(f, eh, j)
    case None => false
    case Some(ph) => ph.kind == ELF_PROG_LOAD ==> SegmentValid(ph) && ph.vaddr + ph.memsz <= sz
  }

  /** A loop that completes has read every one of the `phnum` entries in
      full, and every loadable one among them is valid and lies below the
      final size. */
  lemma {:induction false} LoadFromOk(f: File, eh: ElfHeader, limit: nat, i: nat, st: LoadState, st': LoadState)
    requires Consistent(st) && i <= eh.phnum
    requires LoadFrom(f, eh, limit, i, st) == Ok(st')
    ensures forall j | i <= j < eh.phnum :: EntryOk(f, eh, j, st'.sz)
    decreases eh.phnum - i
  {
    if i < eh.phnum {
      var ph := EntryAt(f, eh, i).value;
      var st1 := Step(ph, f, limit, st).value;
      LoadFromOk(f, eh, limit, i + 1, st1, st');
      if ph.kind == ELF_PROG_LOAD {
        LoadSegmentChecks(ph, f, limit, st);
      }
    }
  }

  /** The errors the program-header loop reports. */
  lemma {:induction false} LoadFromErrors(f: File, eh: ElfHeader, limit: nat, i: nat, st: LoadState)
    requires Consistent(st)
    ensures LoadFrom(f, eh, limit, i, st).Err? ==>
      LoadFrom(f, eh, limit, i, st).error in
        {TruncatedProgramHeader, InvalidProgramHeader, AddressSpaceExhausted, SegmentLoadFailure}
    decreases eh.phnum - i
  {
    if i < eh.phnum && EntryAt(f, eh, i).Some? {
      var ph := EntryAt(f, eh, i).value;
      if Step(ph, f, limit, st).Ok? {
        LoadFromErrors(f, eh, limit, i + 1, Step(ph, f, limit, st).value);
      }
    }
  }

  /** A truncated entry, or a loadable entry that breaks one of the three
      conditions, anywhere in the table makes the load fail. */
  lemma LoadRejects(f: File, eh: ElfHeader, limit: nat, j: nat)
    requires j < eh.phnum
    ensures EntryAt(f, eh, j).None? ||
            (EntryAt(f, eh, j).value.kind == ELF_PROG_LOAD && !SegmentValid(EntryAt(f, eh, j).value))
            ==> LoadImage(f, eh, limit).Err?
  {
    if LoadImage(f, eh, limit).Ok? {
      LoadFromOk(f, eh, limit, 0, LoadState(0, []), LoadImage(f, eh, limit).value);
      assert EntryOk(f, eh, j, LoadImage(f, eh, limit).value.sz);
    }
  }

  /** Lines 115-124 for one loadable entry, against the space built so far. */
  method LoadEntry(ph: ProgHeader, f: File, pgdir: AddressSpace, sz: u32) returns (res: Result<u32>)
    requires pgdir.Valid() && |pgdir.mem| == sz
    modifies pgdir
    ensures pgdir.Valid() && pgdir.guard == old(pgdir.guard) && pgdir.freed == old(pgdir.freed)
    ensures var spec := LoadSegment(ph, f, pgdir.limit, LoadState(sz, old(pgdir.mem)));
      (res.Ok? <==> spec.Ok?) && (res.Err? ==> res.error == spec.error) &&
      (res.Ok? ==> LoadState(res.value, pgdir.mem) == spec.value)
  {
    AddOverflowTest(ph.vaddr, ph.memsz);
    if ph.memsz < ph.filesz {
      return Err(InvalidProgramHeader);
    }
    if Add32(ph.vaddr, ph.memsz) < ph.vaddr {
      return Err(InvalidProgramHeader);
    }
    var nsz := pgdir.AllocUvm(sz, Add32(ph.vaddr, ph.memsz));
    if nsz == 0 {
      return Err(AddressSpaceExhausted);
    }
    if ph.vaddr % PGSIZE != 0 {
      return Err(InvalidProgramHeader);
    }
    var ok := pgdir.LoadUvm(ph.vaddr, f, ph.off, ph.filesz);
    if !ok {
      return Err(SegmentLoadFailure);
    }
    return Ok(nsz);
  }

  /** The loop from entry `i` is that entry's pass followed by the loop
      from entry `i + 1`. */
  lemma LoadFromNext(f: File, eh: ElfHeader, limit: nat, i: nat, st: LoadState)
    requires Consistent(st) && i < eh.phnum
    ensures LoadFrom(f, eh, limit, i, st) ==
      if EntryAt(f, eh, i).None? then Err(TruncatedProgramHeader)
      else match Step(EntryAt(f, eh, i).value, f, limit, st)
        case Err(e) => Err(e)
        case Ok(st') => LoadFrom(f, eh, limit, i + 1, st')
  {
  }

  /** One pass of the loop of lines 110-125: reads entry `i` at `off` and
      loads it if it is loadable. */
  method LoadNext(f: File, eh: ElfHeader, pgdir: AddressSpace, i: nat, off: u32, sz: u32) returns (res: Result<u32>)
    requires pgdir.Valid() && |pgdir.mem| == sz && i < eh.phnum && off == PhOffset(eh, i)
    modifies pgdir
    ensures pgdir.Valid() && pgdir.guard == old(pgdir.guard) && pgdir.freed == old(pgdir.freed)
    ensures res.Ok? ==> |pgdir.mem| == res.value
    ensures LoadFrom(f, eh, pgdir.limit, i, LoadState(sz, old(pgdir.mem))) ==
      if res.Err? then Err(res.error) else LoadFrom(f, eh, pgdir.limit, i + 1, LoadState(res.value, pgdir.mem))
  {
    LoadFromNext(f, eh, pgdir.limit, i, LoadState(sz, pgdir.mem));
    var r := ReadI(f, off, PROGHDR_SIZE);
    if r.None? || |r.value| != PROGHDR_SIZE {
      return Err(TruncatedProgramHeader);
    }
    var ph := DecodeProgHeader(r.value);
    assert EntryAt(f, eh, i) == Some(ph);
    if ph.kind != ELF_PROG_LOAD {
      return Ok(sz);
    }
    res := LoadEntry(ph, f, pgdir, sz);
  }

  /** Lines 109-125 against a fresh address space; returns the final `sz`. */
  method LoadSegments(f: File, eh: ElfHeader, pgdir: AddressSpace) returns (res: Result<u32>)
    requires pgdir.Valid() && pgdir.mem == []
    modifies pgdir
    ensures pgdir.Valid() && pgdir.guard == old(pgdir.guard) && pgdir.freed == old(pgdir.freed)
    ensures res.Ok? <==> LoadImage(f, eh, pgdir.limit).Ok?
    ensures res.Err? ==> res.error == LoadImage(f, eh, pgdir.limit).error
    ensures res.Ok? ==> res.value == LoadImage(f, eh, pgdir.limit).value.sz
    ensures res.Ok? ==> pgdir.mem == LoadImage(f, eh, pgdir.limit).value.mem
  {
    var sz: u32 := 0;
    var i := 0;
    var off: u32 := eh.phoff;
    while i < eh.phnum
      invariant 0 <= i <= eh.phnum && off == PhOffset(eh, i)
      invariant pgdir.Valid() && |pgdir.mem| == sz
      invariant pgdir.guard == old(pgdir.guard) && pgdir.freed == old(pgdir.freed)
      invariant LoadImage(f, eh, pgdir.limit) == LoadFrom(f, eh, pgdir.limit, i, LoadState(sz, pgdir.mem))
    {
      var r := LoadNext(f, eh, pgdir, i, off, sz);
      if r.Err? {
        return r;
      }
      sz := r.value;
      PhOffsetNext(eh, i);
      i, off := i + 1, Add32(off, PROGHDR_SIZE);
    }
    return Ok(sz);
  }
}
