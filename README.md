# xv6 `exec` with interpreter directives, in Dafny

This project models the program loader of an xv6 kernel variant:
`exec_rec` and its wrapper `exec` in `exec.c`. A call replaces the image of
the calling process with a program read from a file. When the file starts
with `#!`, the loader reads the interpreter path that follows. It then
rewrites the argument vector to `[interpreter, path, argv[1], ...]` and
starts again on the interpreter, at most ten levels deep. At depth 0 the
new vector goes into a new page; deeper down, the array is shifted in place.

Any other file is loaded as a 32-bit ELF executable:

- The ELF header is read and its magic number is checked.
- A new address space is made.
- Every program header is read. Each loadable one is checked, the space is
  grown to cover it, and its file bytes are copied in.
- Two pages are mapped at the next page boundary. The lower one becomes a
  guard page. The argument strings are pushed onto the upper one, and below
  them goes the frame `main(argc, argv)` expects.
- The process takes the new name, address space, size, entry point and
  stack pointer, and its old address space is released.

Every failure leaves the process as it was.

Modules, one per file:

- `Base` (base.dfy): constants, `u32`, `byte` and C strings.
- `Arith` (arith.dfy): wrapping 32-bit arithmetic.
- `Elf` (elf.dfy): little-endian headers.
- `Fs` (fs.dfy): files, `readi` and the log counter.
- `Vm` (vm.dfy): the address-space collaborators, as a class.
- `Directive` (directive.dfy): the `#!` scan and both argument-vector rewrites, over arrays.
- `Loader` (loader.dfy): the program-header loop.
- `Stack` (stack.dfy): the user stack.
- `Exec` (exec.dfy): the process, the recursion and the commit.

Each imperative step is a method proved equal to a pure function of its
inputs and the old state. For example, `Loader.LoadSegments` is proved
equal to `Loader.LoadImage`, `Stack.BuildUserStack` to `Stack.UserStack`,
and `Exec.ExecRec` to `Exec.ExecSpec`. The lemmas beside those functions
prove what the loader promises.

The kernel reports every failure as the same `-1`. The model keeps a
distinct `Error` value for each guard so that the guards can be told apart.
`Exec.Exec` maps all of them back to `-1`.

Files are given to the model as a map from path to contents (`Exec.Env`).
The allocator's capacity is a parameter (`Vm.Machine`): whether `setupkvm`
can get a page directory, and up to which size `allocuvm` can grow a space.

## Model

| member | source | states |
|---|---|---|
| Arith.AlignDown4 | exec.c:142 | `sp & ~3` is a multiple of 4, at most `sp` and less than 4 below it |
| Arith.PgRoundUp | exec.c:132 | the rounded size is page-aligned and in `[x, x + PGSIZE)`; on the last page below 2^32 it wraps to 0 |
| Arith.AddOverflowTest | exec.c:117-118 | the test `vaddr + memsz < vaddr` fires exactly when the true sum does not fit in 32 bits |
| Arith.PushBelow | exec.c:142 | a pushed string lands at least its length below `sp` and less than 4 more; if it is longer than `sp`, the address wraps to the top of the space |
| Arith.SubNoWrap | exec.c:151 | 32-bit subtraction without underflow is ordinary subtraction, so `ustack[2]` is exactly 12 bytes above the final `sp` |
| Elf.DecodeElfHeader | exec.c:101-103 | the header decodes from its 52 bytes; `phnum` is a 16-bit count |
| Elf.LEValueOfBytes | exec.c:101 | little-endian bytes for a value that fits read back as that value |
| Elf.LEBytesOfValue | exec.c:101 | bytes read as a little-endian value are written back unchanged |
| Elf.DecodeLE32 | exec.c:154 | a word stored little-endian reads back as itself |
| Elf.EncodeU32At | exec.c:111 | a word read from memory re-encodes to the same four bytes |
| Elf.WordsOfBytes | exec.c:154 | the `ustack` words copied out as bytes read back as the same words |
| Elf.DecodeEncodeProgHeader | exec.c:111 | a program header written out and read back is unchanged |
| Elf.EncodeDecodeProgHeader | exec.c:111 | every 32-byte entry is exactly the encoding of the header it decodes to |
| Fs.FullReadIff | exec.c:45 | `readi` returns all `n` bytes exactly when the range lies in the file, and then returns that range |
| Fs.Log.BeginOp | exec.c:33 | `begin_op` opens one log operation |
| Fs.Log.EndOp | exec.c:36 | `end_op` closes one log operation |
| Vm.Grown | exec.c:119 | newly mapped memory reads as zero; what was mapped is kept |
| Vm.Write | exec.c:143 | a write stores its bytes at the address and changes nothing else |
| Vm.WriteKeeps | exec.c:143 | a write leaves every range it does not touch as it was |
| Vm.AllocResult | exec.c:119 | `allocuvm` returns 0, the old size or the new size, and the new size exactly when the space can grow |
| Vm.AddressSpace.AllocUvm | exec.c:119 | returns the size as above, and the memory is zero-extended only when the space grows |
| Vm.AddressSpace.LoadUvm | exec.c:123 | succeeds exactly when the file holds the segment's bytes, and then stores them at `vaddr` |
| Vm.AddressSpace.CopyOut | exec.c:143 | succeeds exactly when user code may write the whole range, and then stores the data there |
| Vm.AddressSpace.ClearPteU | exec.c:135 | adds the page below the stack to the guard pages; the memory is unchanged |
| Vm.AddressSpace.FreeVm | exec.c:174 | marks the space released |
| Vm.SetupKvm | exec.c:106 | yields a fresh, empty space exactly when a page directory can be allocated |
| Directive.Vector | exec.c:73 | the argument strings are the entries before the first null pointer, and a null pointer follows them |
| Directive.VectorIs | exec.c:76 | an array holding the strings of `v`, then a null pointer, holds the vector `v` |
| Directive.RewrittenAt | exec.c:68-90 | `[interp, path]`, then the old entries from index 1 up to the null pointer, then a null pointer, is the rewritten vector |
| Directive.FirstTerminator | exec.c:52-57 | finds the first space or newline; none comes before it, and none is found when there is none |
| Directive.CStrOf | exec.c:54 | the C string at the start of a buffer is its prefix up to the first NUL |
| Directive.CStrOfNoNul | exec.c:54-62 | bytes without a NUL are read as a C string whole |
| Directive.CStrOfCut | exec.c:54 | writing a NUL at `i` ends the C string at `i` at the latest |
| Directive.DirectiveBytes | exec.c:50 | the bytes `readi(ip, shebang, 2, MAX_SHEBANG_LENGTH)` returns: the file from offset 2, cut at 4096 bytes or at the end of the file |
| Directive.InterpreterIsFirstWord | exec.c:50-62 | the interpreter is the C string before the first space or newline in the bytes read, and exactly those bytes when they hold no NUL |
| Directive.InterpreterUnterminated | exec.c:59-62 | no space or newline in the bytes read means the directive is refused |
| Directive.ReadDirective | exec.c:49-50 | the page holds exactly the bytes `readi` returns after `#!`; the rest is untouched |
| Directive.Terminate | exec.c:51-58 | it finds a terminator exactly when one exists among the bytes read; the first one is overwritten with NUL and nothing else changes |
| Directive.FreshVector | exec.c:67-77 | a new page holds `[interp, path, argv[1], ..., null]`; the caller's array is only read |
| Directive.CopyTail | exec.c:72-75 | the entries from `argv[1]` up to the null pointer are copied one slot higher into the new page |
| Directive.ShiftVector | exec.c:79-91 | in place, the array ends up holding `[interp, path, old argv[1], ..., null]`, the same vector the depth-0 branch builds; slots past the spare one are untouched |
| Directive.VectorLength | exec.c:84 | the walk stops at the index of the null pointer ending the vector |
| Directive.ShiftUp | exec.c:86-88 | `argv[2..n]` takes the old `argv[1..n-1]`; `argv[0]`, `argv[1]` and the slots from `n+1` on are unchanged |
| Loader.PhOffsetNext | exec.c:110 | `off += sizeof(ph)` keeps `off == phoff + i * 32` (mod 2^32) |
| Loader.LoadSegment | exec.c:115-124 | a loaded segment keeps the state consistent and never shrinks the size |
| Loader.LoadSegmentChecks | exec.c:115-124 | `memsz < filesz` or a wrapping end means an invalid header; a misaligned `vaddr` is refused only after growth, so an exhausted allocator is reported first; a segment loads exactly when it is valid, the space can grow and the file holds its bytes; it then lies below the new size |
| Loader.LoadSegmentContents | exec.c:119-124 | the file bytes are at `vaddr`; other new memory is zero; old memory outside the segment is unchanged |
| Loader.Step | exec.c:113-114 | entries that are not `ELF_PROG_LOAD` are skipped; the state stays consistent |
| Loader.LoadFrom | exec.c:110-125 | the loop keeps the mapped bytes exactly `sz` long and below the kernel, and never shrinks `sz` |
| Loader.LoadFromOk | exec.c:110-125 | a completed loop read all `phnum` entries in full; each loadable one is valid and ends below the final size |
| Loader.LoadFromErrors | exec.c:111-124 | the loop fails only with a short read, an invalid header, an exhausted allocator or a short file |
| Loader.LoadRejects | exec.c:111-122 | a truncated entry, or a loadable entry breaking one of the three conditions, anywhere in the table makes the load fail |
| Loader.LoadFromNext | exec.c:110-125 | the loop from entry `i` is entry `i`'s pass, then the loop from `i + 1` |
| Loader.LoadEntry | exec.c:115-124 | the address space goes through exactly the steps `LoadSegment` describes, failing with the same error |
| Loader.LoadNext | exec.c:111-124 | one pass reads entry `i` at `off` and advances the loop function by one entry |
| Loader.LoadSegments | exec.c:109-125 | the loop yields the size and memory of `LoadImage`, or its error |
| Stack.PushFrom | exec.c:139-146 | a completed push records one address per argument, at most MAXARG, and keeps the memory size |
| Stack.FrameWords | exec.c:147-151 | `ustack` holds `argc + 4` words |
| Stack.UserStack | exec.c:132-155 | a built stack keeps the size equal to the mapped bytes and below the kernel |
| Stack.PlaceFrame | exec.c:153-155 | a placed frame keeps the size equal to the mapped bytes and below the kernel |
| Stack.AboveGuard | exec.c:135 | a write user code may make that ends above the guard page lies inside the stack page |
| Stack.PushStep | exec.c:142-145 | one push lands the string 4-aligned at the new, lower `sp` inside the stack page, keeps earlier strings and writes nothing below the page |
| Stack.PushFromOk | exec.c:139-146 | a completed push loop leaves every string intact at its address inside the stack page, `sp` 4-aligned below them, and nothing below the page written |
| Stack.FrameWord | exec.c:154 | the frame copied out reads back word by word |
| Stack.PlaceFrameOk | exec.c:153-155 | the frame sits `(3 + argc + 1) * 4` bytes below the last string, inside the stack page, 4-aligned, and leaves the strings and lower memory unchanged |
| Stack.FrameReads | exec.c:147-155 | the frame reads back as `0xffffffff`, `argc`, `sp + 12`, the string pointers and a null pointer |
| Stack.FrameArgs | exec.c:145 | each `argv` entry in the frame points at its argument, NUL-terminated |
| Stack.FrameWordsAt | exec.c:147-151 | `ustack[0] = 0xffffffff`, `ustack[1] = argc`, `ustack[2] = sp - (argc + 1) * 4`, `ustack[3 + k]` the k-th address, `ustack[3 + argc] = 0` |
| Stack.StoredAt | exec.c:145 | an `argv` entry holding a pushed string's address points at that string |
| Stack.UserStackPages | exec.c:132-135 | the size becomes `PGROUNDUP(sz) + 2 * PGSIZE`; the lower new page is the guard; the loaded memory is unchanged |
| Stack.UserStackLayout | exec.c:136-155 | the final `sp` is 4-aligned, and the memory there holds the frame `main(argc, argv)` expects |
| Stack.UserStackParts | exec.c:132-155 | a built stack is the push loop on the two new pages, then the frame |
| Stack.UserStackAfterAlloc | exec.c:133-155 | once the pages are mapped, the build is the push loop, then the frame |
| Stack.TwoPagesUp | exec.c:133 | two pages above a page boundary is a page boundary, and 4-aligned |
| Stack.PushFromTooMany | exec.c:139-141 | more than MAXARG arguments make the push loop fail |
| Stack.UserStackTooMany | exec.c:139-141 | more than MAXARG arguments never yield a stack |
| Stack.PushFromErrors | exec.c:140-144 | the push loop fails only for too many arguments or a copy user code could not make |
| Stack.UserStackErrors | exec.c:133-155 | building the stack fails only for an exhausted allocator, too many arguments or a refused copy |
| Stack.PushFromNext | exec.c:139-146 | the push loop from `k` is argument `k`'s push, then the loop from `k + 1` |
| Stack.PushString | exec.c:142-145 | one pass copies the string to `(sp - (len + 1)) & ~3`, records that address in `ustack` and advances the loop function by one argument |
| Stack.PushArgs | exec.c:139-147 | the loop's memory, final `sp` and recorded addresses are those of `PushFrom`, or its error |
| Stack.PushFrame | exec.c:147-155 | fills `ustack` and copies it out as `PlaceFrame` describes, or fails with its error |
| Stack.StackPages | exec.c:132-135 | maps the two pages exactly as `allocuvm` allows; on success the memory is zero-extended to the new size and the lower page becomes a guard |
| Stack.WriteBelowKeeps | exec.c:154 | a write that ends below the pushed strings keeps every one of them |
| Stack.BuildUserStack | exec.c:130-155 | size, stack pointer, memory and guard pages are those of `UserStack`, or its error |
| Exec.BaseStart | exec.c:158-160 | the last component starts just after a `/`, or at 0, and holds no `/` |
| Exec.SafeName | exec.c:161 | `safestrcpy` keeps at most 15 bytes, a prefix of its source, and all of a shorter source |
| Exec.ProcNameIsLastComponent | exec.c:157-161 | the name is a prefix of the last path component, holds no `/`, and is the whole component when that is shorter than 16 bytes |
| Exec.ProcNameNoSlash | exec.c:157-161 | a path without `/` names the process by itself |
| Exec.LastComponent | exec.c:158-160 | the scan returns where the last component begins |
| Exec.NameOf | exec.c:157-161 | the stored name is the process name of `path` |
| Exec.ProgramSpec | exec.c:100-125 | a loaded program's state is consistent |
| Exec.ProgramSpecOk | exec.c:100-125 | a program loads only from a full ELF header with the magic number; it starts at the header's entry point, and every program header was read, each loadable one valid and below the size |
| Exec.ProgramErrors | exec.c:100-125 | loading fails only for a bad header, no address space, a short entry, an invalid entry or a short file |
| Exec.ExecSpecShort | exec.c:45-46 | a file shorter than 2 bytes is refused |
| Exec.ExecSpecBinary | exec.c:47 | a file not starting with `#!` is loaded as a program with the vector it was given |
| Exec.ExecSpecDirective | exec.c:47-93 | a directive restarts the load on its first word, with `[interp, path, args[1], ...]`, one level deeper |
| Exec.SelfInterpreter | exec.c:18-22 | a script naming itself as interpreter is followed until the depth limit, then refused |
| Exec.BinarySpecLayout | exec.c:130-166 | a loaded image has the header's entry, the last path component as name, two new pages with a guard, the program memory unchanged, `sp` 4-aligned in the stack page and the `main` frame at `sp` |
| Exec.BinarySpecTooMany | exec.c:139-141 | more than MAXARG arguments never yield an image |
| Exec.BinaryNeverTooDeep | exec.c:100-155 | loading a program never reports the depth limit |
| Exec.LogNetAsWrittenUnbalanced | exec.c:18-22 | as written, the log ends one operation too many exactly when the chain of directives reaches the depth limit |
| Exec.SelfInterpreterUnbalanced | exec.c:19 | as written, a self-naming script ends one more log operation than it began |
| Exec.ReadInterpreter | exec.c:49-62 | reading and cutting the directive yields the interpreter path, or the refusal |
| Exec.RewriteArgs | exec.c:66-91 | the new vector is `[interp, path, argv[1], ...]`: in a fresh page at depth 0 (the caller's array is untouched), in the same array deeper |
| Exec.LoadProgram | exec.c:100-174 | yields a fresh, unreleased space holding the program exactly when it loads, with the header's entry point; fails with the load's error, and then the space `setupkvm` made, if any, is released |
| Exec.Commit | exec.c:163-169 | the process takes the new name, space, size, eip and esp; the old space is released unchanged |
| Exec.RunBinary | exec.c:100-179 | ends the log operation once; the process runs exactly the image `BinarySpec` describes, or is left as it was with its space untouched and the space made for the image, if any, released |
| Exec.FollowDirective | exec.c:47-98 | ends this level's log operation; the outcome is that of the load one level deeper on the interpreter with the rewritten vector |
| Exec.ExecRec | exec.c:15-98 | leaves the log balanced; the process runs the image `ExecSpec` describes, or is unchanged; the caller's vector is untouched at depth 0; past the depth limit nothing is touched |
| Exec.Exec | exec.c:182-185 | returns 0 exactly when the process now runs the new image, otherwise -1 with the process and the caller's vector unchanged |

## Left out

- `pipetest.c`: a user-space test of concurrent pipe writers. It holds none of the loader's logic.
- `namei`, `readi`, `ilock`, `iunlockput` and the inode layer are not part of this model. A file is its byte sequence, found by path in a map. `readi` refuses an offset past the end and returns short at the end of the file. Inode locking is not modelled.
- `begin_op`/`end_op` are modelled only as a counter of open operations. Log transactions, their commit and concurrency between processes are not modelled.
- `setupkvm`, `allocuvm`, `loaduvm`, `copyout`, `clearpteu` and `freevm` (vm.c) are not part of this model. They act on an abstract space: its bytes from 0, its guard pages and whether it is released. Page tables, physical pages and the `KERNBASE` mapping are not modelled. An allocation fails when it would pass a capacity given as a parameter. A copy fails when it leaves the mapped range or touches a guard page.
- `switchuvm`: activating the new page table is hardware state and is left out.
- `kalloc`/`kfree`: the pages for the directive buffer and the new vector are assumed to be available, because the source does not check `kalloc`'s result. Freeing them is left out.
- `cprintf`: diagnostic output only.
- Partial writes on failure: a failed `loaduvm` or `copyout` is modelled as writing nothing. The released space is never read again, so this is not observable to the process.
- `struct proc`: only `name`, `pgdir`, `sz` and the trap frame's `eip`/`esp` are modelled. The bytes of the 16-byte name field after the terminator are not modelled.
- Exec.ExecRec: the end of the log operation at line 19 is left out (see Findings). The model leaves the log as it found it at the depth limit, where the code as written ends one operation more.
- Exec.ArgvOk: the depth-0 vector comes from `sys_exec`. That caller holds at most MAXARG arguments and clears its array, so a null `argv[0]` is followed by a null `argv[1]`. `FreshVector` reads `argv[1]` even then, so this is required of the caller rather than modelled as a failure.

## Findings

| source | as written | input that shows it | evidently intended | confidence | as-written member | corrected member |
|---|---|---|---|---|---|---|
| exec.c:19 | past the depth limit, `exec_rec` calls `end_op()` before returning -1. No `begin_op()` was made at that level, and the caller already ended its own operation at line 92. | a script whose `#!` line names the script itself: eleven levels each begin and end one operation, and the twelfth ends one more | return -1 without touching the log | not executed | Exec.LogNetAsWrittenUnbalanced, Exec.SelfInterpreterUnbalanced | Exec.ExecRec |
