/** `exec_rec` and `exec` (exec.c): replacing the image of the calling
    process with a program read from a file, following `#!` interpreter
    directives up to a fixed depth. The process is changed only when the
    new image is complete; every failure leaves it as it was. Line numbers
    in this module refer to exec.c. */
module Exec {
  import opened Base
  import opened Arith
  import opened Elf
  import opened Fs
  import opened Vm
  import opened Directive
  import opened Loader
  import opened Stack

  /** The saved user registers of a process that `exec` sets. */
  class TrapFrame {
    var eip: u32
    var esp: u32

    constructor (eip: u32, esp: u32)
      ensures this.eip == eip && this.esp == esp
    {
      this.eip := eip;
      this.esp := esp;
    }
  }

  /** The fields of `struct proc` that `exec` reads or replaces. `name`
      holds the C string stored in the 16-byte name field. */
  class Proc {
    var name: CString
    var pgdir: AddressSpace
    var sz: u32
    const tf: TrapFrame

    constructor (name: CString, pgdir: AddressSpace, sz: u32, tf: TrapFrame)
      ensures this.name == name && this.pgdir == pgdir && this.sz == sz && this.tf == tf
    {
      this.name := name;
      this.pgdir := pgdir;
      this.sz := sz;
      this.tf := tf;
    }
  }

  /** What the rest of the kernel supplies: the files `namei` finds, by
      path, and what `setupkvm` and `allocuvm` can allocate. */
  datatype Env = Env(files: map<CString, File>, machine: Machine)

  /** A complete new image: the process name, the user memory with its
      guard pages, and the registers the process resumes with. */
  datatype Image = Image(name: CString, sz: u32, mem: seq<byte>, guard: set<nat>, entry: u32, sp: u32)

  /** The state of a process that `exec` may replace. */
  datatype ProcView = ProcView(name: CString, pgdir: AddressSpace, sz: u32, eip: u32, esp: u32)

  function View(p: Proc): ProcView
    reads p, p.tf
  {
    ProcView(p.name, p.pgdir, p.sz, p.tf.eip, p.tf.esp)
  }

  /** True when the process runs `img` in a live address space. */
  predicate Runs(p: Proc, img: Image)
    reads p, p.pgdir, p.tf
  {
    p.name == img.name && p.sz == img.sz && p.tf.eip == img.entry && p.tf.esp == img.sp &&
    p.pgdir.mem == img.mem && p.pgdir.guard == img.guard && !p.pgdir.freed
  }

  /** Where the last path component starts: just after the last `/`, or
      at 0 when there is none. */
  function BaseStart(path: seq<byte>): (i: nat)
    ensures i <= |path|
    ensures i == 0 || path[i - 1] == SLASH
    ensures forall k | i <= k < |path| :: path[k] != SLASH
  {
    if path == [] then 0
    else if path[|path| - 1] == SLASH then |path|
    else BaseStart(path[..|path| - 1])
  }

  /** `safestrcpy(name, s, sizeof(name))`: at most 15 bytes of `s` fit
      before the terminator. */
  function SafeName(s: CString): (r: CString)
    ensures |r| < PROC_NAME_LEN && r <= s
    ensures |s| < PROC_NAME_LEN ==> r == s
  {
    if |s| < PROC_NAME_LEN then s else s[..PROC_NAME_LEN - 1]
  }

  /** The name a process gets from `path` (lines 157-161). */
  function ProcName(path: CString): (r: CString)
  {
    SafeName(path[BaseStart(path)..])
  }

  /** The name is a prefix of the last path component, holds no `/`, and
      is that whole component when it is shorter than 16 bytes. */
  lemma ProcNameIsLastComponent(path: CString)
    ensures var r := ProcName(path);
      |r| < PROC_NAME_LEN && r <= path[BaseStart(path)..] &&
      (forall k | 0 <= k < |r| :: r[k] != SLASH) &&
      (|path| - BaseStart(path) < PROC_NAME_LEN ==> r == path[BaseStart(path)..])
  {
    var r := ProcName(path);
    var b := BaseStart(path);
    assert forall k | 0 <= k < |r| :: r[k] == path[b + k];
  }

  /** A path without `/` names the process by itself, cut to 15 bytes. */
  lemma ProcNameNoSlash(path: CString)
    requires forall k | 0 <= k < |path| :: path[k] != SLASH
    ensures ProcName(path) == SafeName(path)
  {
    assert path[BaseStart(path)..] == path;
  }

  /** The scan of lines 158-160: the index where the last component of
      `path` begins. */
  method LastComponent(path: CString) returns (last: nat)
    ensures last == BaseStart(path)
  {
    last := 0;
    var s := 0;
    while s < |path|
      invariant 0 <= s <= |path|
      invariant last == BaseStart(path[..s])
    {
      assert path[..s + 1][..s] == path[..s];
      if path[s] == SLASH {
        last := s + 1;
      }
      s := s + 1;
    }
    assert path[..s] == path;
  }

  /** Lines 157-161: the name `safestrcpy` stores for `path`. */
  method NameOf(path: CString) returns (name: CString)
    ensures name == ProcName(path)
  {
    var last := LastComponent(path);
    assert forall k | 0 <= k < |path| - last :: path[last..][k] == path[last + k];
    name := SafeName(path[last..]);
  }

  /** The loaded program: the entry point from the ELF header and the
      memory the program-header loop built. */
  datatype Program = Program(entry: u32, image: LoadState)

  /** Lines 100-125: the ELF header must be read whole and carry the
      magic number; a page directory must be available; then every
      program header is processed. */
  function ProgramSpec(env: Env, f: File): (r: Result<Program>)
    ensures r.Ok? ==> Consistent(r.value.image)
  {
    var h := ReadI(f, 0, ELFHDR_SIZE);
    if h.None? || |h.value| != ELFHDR_SIZE then Err(InvalidELFMagic)
    else
      var eh := DecodeElfHeader(h.value);
      if eh.magic != ELF_MAGIC then Err(InvalidELFMagic)
      else if !env.machine.kvmOk then Err(AddressSpaceExhausted)
      else match LoadImage(f, eh, env.machine.limit)
        case Err(e) => Err(e)
        case Ok(ld) => Ok(Program(eh.entry, ld))
  }

  /** Lines 100-161 for a file without a directive: the program is
      loaded, the user stack is built over it with `args`, and the image
      is named after the last component of `path`. */
  function BinarySpec(env: Env, path: CString, f: File, args: seq<CString>): Result<Image>
  {
    match ProgramSpec(env, f)
    case Err(e) => Err(e)
    case Ok(prog) =>
      match UserStack(args, env.machine.limit, prog.image.sz, prog.image.mem, {})
      case Err(e) => Err(e)
      case Ok(st) => Ok(Image(ProcName(path), st.sz, st.mem, st.guard, prog.entry, st.sp))
  }

  /** Lines 16-98: the outcome of `exec_rec(path, argv, depth)` where
      `args` is the vector `argv` holds. */
  function ExecSpec(env: Env, path: CString, args: seq<CString>, depth: nat): Result<Image>
    requires depth <= MAX_SHEBANG_DEPTH + 1
    decreases MAX_SHEBANG_DEPTH + 1 - depth, 1
  {
    if depth > MAX_SHEBANG_DEPTH then Err(TooManyInterpreterLevels)
    else if path !in env.files then Err(PathNotFound)
    else
      var f := env.files[path];
      var b := ReadI(f, 0, 2);
      if b.None? || |b.value| != 2 then Err(FileIOError)
      else if b.value[0] == HASH && b.value[1] == BANG then DirectiveSpec(env, path, f, args, depth)
      else BinarySpec(env, path, f, args)
  }

  /** Lines 47-98: a directive restarts the load on the interpreter with
      the rewritten vector, one level deeper. */
  function DirectiveSpec(env: Env, path: CString, f: File, args: seq<CString>, depth: nat): Result<Image>
    requires depth <= MAX_SHEBANG_DEPTH && HasDirective(f)
    decreases MAX_SHEBANG_DEPTH + 1 - depth, 0
  {
    match Interpreter(f)
    case Err(e) => Err(e)
    case Ok(interp) => ExecSpec(env, interp, Rewritten(args, interp, path), depth + 1)
  }

  /** A file that starts with anything but `#!` is loaded as a program
      right away, with the vector it was given. */
  lemma ExecSpecBinary(env: Env, path: CString, args: seq<CString>, depth: nat)
    requires depth <= MAX_SHEBANG_DEPTH && path in env.files
    requires 2 <= |env.files[path]| && !HasDirective(env.files[path])
    ensures ExecSpec(env, path, args, depth) == BinarySpec(env, path, env.files[path], args)
  {
    FullReadIff(env.files[path], 0, 2);
  }

  /** A file shorter than the two bytes of the marker is refused. */
  lemma ExecSpecShort(env: Env, path: CString, args: seq<CString>, depth: nat)
    requires depth <= MAX_SHEBANG_DEPTH && path in env.files && |env.files[path]| < 2
    ensures ExecSpec(env, path, args, depth) == Err(FileIOError)
  {
    FullReadIff(env.files[path], 0, 2);
  }

  /** A directive whose first word is `interp`, ended by a space or a
      newline within the bytes read, restarts the load on `interp` with
      `[interp, path, args[1], ...]` one level deeper. */
  lemma ExecSpecDirective(env: Env, path: CString, args: seq<CString>, depth: nat, interp: CString)
    requires depth <= MAX_SHEBANG_DEPTH && path in env.files
    requires var f := env.files[path];
      HasDirective(f) && 2 + |interp| < |f| && |interp| < MAX_SHEBANG_LENGTH &&
      f[2..2 + |interp|] == interp && IsTerminator(f[2 + |interp|]) &&
      forall k | 0 <= k < |interp| :: !IsTerminator(interp[k])
    ensures ExecSpec(env, path, args, depth) ==
      ExecSpec(env, interp, [interp, path] + (if args == [] then [] else args[1..]), depth + 1)
  {
    var f := env.files[path];
    forall k | 2 <= k < 2 + |interp|
      ensures !IsTerminator(f[k])
    {
      assert f[k] == interp[k - 2];
    }
    InterpreterIsFirstWord(f, |interp|);
  }

  /** A script naming itself as its interpreter is followed until the
      depth limit and then refused. */
  lemma {:induction false} SelfInterpreter(env: Env, path: CString, args: seq<CString>, depth: nat)
    requires depth <= MAX_SHEBANG_DEPTH + 1 && path in env.files
    requires HasDirective(env.files[path]) && Interpreter(env.files[path]) == Ok(path)
    ensures ExecSpec(env, path, args, depth) == Err(TooManyInterpreterLevels)
    decreases MAX_SHEBANG_DEPTH + 1 - depth
  {
    if depth <= MAX_SHEBANG_DEPTH {
      FullReadIff(env.files[path], 0, 2);
      SelfInterpreter(env, path, Rewritten(args, path, path), depth + 1);
    }
  }

  /** A program is loaded only from a file holding a whole ELF header
      with the magic number; it starts at the header's entry point, and
      every program header was read in full, each loadable one valid and
      below the loaded size. */
  lemma ProgramSpecOk(env: Env, f: File)
    requires ProgramSpec(env, f).Ok?
    ensures var prog := ProgramSpec(env, f).value;
      var eh := DecodeElfHeader(f[..ELFHDR_SIZE]);
      ELFHDR_SIZE <= |f| && eh.magic == ELF_MAGIC && prog.entry == eh.entry &&
      LoadImage(f, eh, env.machine.limit) == Ok(prog.image) &&
      forall j | 0 <= j < eh.phnum :: EntryOk(f, eh, j, prog.image.sz)
  {
    FullReadIff(f, 0, ELFHDR_SIZE);
    var eh := DecodeElfHeader(f[..ELFHDR_SIZE]);
    LoadFromOk(f, eh, env.machine.limit, 0, LoadState(0, []), ProgramSpec(env, f).value.image);
  }

  /** What a successful load leaves above the program: two new pages at
      the next page boundary, the lower one a guard, the program's memory
      as loaded, and at `sp`, 4-aligned, the frame `main(argc, argv)`
      expects for `args`; the image is named after `path`. */
  lemma BinarySpecLayout(env: Env, path: CString, f: File, args: seq<CString>)
    requires BinarySpec(env, path, f, args).Ok?
    ensures var img := BinarySpec(env, path, f, args).value;
      var prog := ProgramSpec(env, f).value;
      img.entry == prog.entry && img.name == ProcName(path) &&
      img.sz == PgRoundUp(prog.image.sz) + 2 * PGSIZE &&
      img.guard == {(img.sz - 2 * PGSIZE) / PGSIZE} &&
      img.mem[..prog.image.sz] == prog.image.mem &&
      |args| <= MAXARG && img.sz - PGSIZE <= img.sp && img.sp % 4 == 0 &&
      MainFrame(img.mem, img.sp, args)
  {
    var prog := ProgramSpec(env, f).value;
    var st := UserStack(args, env.machine.limit, prog.image.sz, prog.image.mem, {}).value;
    assert BinarySpec(env, path, f, args).value == Image(ProcName(path), st.sz, st.mem, st.guard, prog.entry, st.sp);
    UserStackPages(args, env.machine.limit, prog.image.sz, prog.image.mem, {});
    UserStackLayout(args, env.machine.limit, prog.image.sz, prog.image.mem, {});
  }

  /** More than MAXARG arguments never yield an image. */
  lemma BinarySpecTooMany(env: Env, path: CString, f: File, args: seq<CString>)
    requires MAXARG < |args|
    ensures BinarySpec(env, path, f, args).Err?
  {
    if ProgramSpec(env, f).Ok? {
      var prog := ProgramSpec(env, f).value;
      UserStackTooMany(args, env.machine.limit, prog.image.sz, prog.image.mem, {});
    }
  }

  /** The net change in the log's count of open operations that
      `exec_rec` makes as written. Every level that passes the depth check
      begins one operation and ends it before returning or recursing; the
      refusal at the depth limit ends an operation that no call at its
      level began (line 19). */
  function LogNetAsWritten(env: Env, path: CString, args: seq<CString>, depth: nat): int
    requires depth <= MAX_SHEBANG_DEPTH + 1
    decreases MAX_SHEBANG_DEPTH + 1 - depth
  {
    if depth > MAX_SHEBANG_DEPTH then -1
    else if path !in env.files then 0
    else
      var f := env.files[path];
      var b := ReadI(f, 0, 2);
      if b.None? || |b.value| != 2 then 0
      else if b.value[0] == HASH && b.value[1] == BANG then
        match Interpreter(f)
        case Err(_) => 0
        case Ok(interp) => 0 + LogNetAsWritten(env, interp, Rewritten(args, interp, path), depth + 1)
      else 0
  }

  /** As written, the log stays balanced except when the chain of
      directives reaches the depth limit, and then one operation too many
      is ended. */
  lemma {:induction false} LogNetAsWrittenUnbalanced(env: Env, path: CString, args: seq<CString>, depth: nat)
    requires depth <= MAX_SHEBANG_DEPTH + 1
    ensures LogNetAsWritten(env, path, args, depth) ==
      if ExecSpec(env, path, args, depth) == Err(TooManyInterpreterLevels) then -1 else 0
    decreases MAX_SHEBANG_DEPTH + 1 - depth
  {
    if depth <= MAX_SHEBANG_DEPTH && path in env.files {
      var f := env.files[path];
      var b := ReadI(f, 0, 2);
      if b.Some? && |b.value| == 2 && b.value[0] == HASH && b.value[1] == BANG && Interpreter(f).Ok? {
        var interp := Interpreter(f).value;
        LogNetAsWrittenUnbalanced(env, interp, Rewritten(args, interp, path), depth + 1);
      } else if b.Some? && |b.value| == 2 && !(b.value[0] == HASH && b.value[1] == BANG) {
        BinaryNeverTooDeep(env, path, f, args);
      }
    }
  }

  /** Loading a program never reports the depth limit. */
  lemma BinaryNeverTooDeep(env: Env, path: CString, f: File, args: seq<CString>)
    ensures BinarySpec(env, path, f, args) != Err(TooManyInterpreterLevels)
  {
    var prog := ProgramSpec(env, f);
    if prog.Ok? {
      var st := UserStack(args, env.machine.limit, prog.value.image.sz, prog.value.image.mem, {});
      if st.Err? {
        UserStackErrors(args, env.machine.limit, prog.value.image.sz, prog.value.image.mem, {});
      }
    } else {
      ProgramErrors(env, f);
    }
  }

  /** The errors the program-header loop and the header check report. */
  lemma ProgramErrors(env: Env, f: File)
    ensures ProgramSpec(env, f).Err? ==>
      ProgramSpec(env, f).error in
        {InvalidELFMagic, AddressSpaceExhausted, TruncatedProgramHeader, InvalidProgramHeader, SegmentLoadFailure}
  {
    var h := ReadI(f, 0, ELFHDR_SIZE);
    if h.Some? && |h.value| == ELFHDR_SIZE {
      var eh := DecodeElfHeader(h.value);
      LoadFromErrors(f, eh, env.machine.limit, 0, LoadState(0, []));
    }
  }

  /** A script that names itself as interpreter ends the log one operation
      too many when run as written, from any depth. */
  lemma SelfInterpreterUnbalanced(env: Env, path: CString, args: seq<CString>)
    requires path in env.files
    requires HasDirective(env.files[path]) && Interpreter(env.files[path]) == Ok(path)
    ensures LogNetAsWritten(env, path, args, 0) == -1
  {
    SelfInterpreter(env, path, args, 0);
    LogNetAsWrittenUnbalanced(env, path, args, 0);
  }

  /** Lines 49-62: reads the directive into a fresh page and cuts it at
      its first space or newline; the interpreter path is the C string
      left at the start of the page. */
  method ReadInterpreter(f: File) returns (res: Result<CString>)
    requires HasDirective(f)
    ensures res == Interpreter(f)
  {
    var shebang := new byte[PGSIZE];
    var n := ReadDirective(shebang, f);
    ghost var b := shebang[..n];
    var found, at := Terminate(shebang, n);
    if !found {
      return Err(MalformedInterpreterDirective);
    }
    assert shebang[..at] == b[..at];
    CStrOfCut(shebang[..], at);
    assert shebang[..][..at] == shebang[..at];
    res := Ok(CStrOf(shebang[..]));
  }

  /** What `exec_rec` needs of the vector it is given: the outermost call
      gets at most MAXARG arguments from `sys_exec`, with a second null
      pointer when the first is null; a nested call gets the page built
      at depth 0, holding at most one argument more per level. */
  predicate ArgvOk(argv: array<Slot>, depth: nat)
    reads argv
  {
    Terminated(argv[..]) &&
    (depth == 0 ==> |Vector(argv[..])| <= MAXARG && 2 <= argv.Length && (argv[0] == Null ==> argv[1] == Null)) &&
    (depth > 0 ==> 2 <= |Vector(argv[..])| <= MAXARG + depth && argv.Length == ARGV_SLOTS)
  }

  /** Lines 66-91: the vector for the interpreter, in a new page at depth
      0 and in the caller's array, shifted, below. */
  method RewriteArgs(argv: array<Slot>, depth: nat, interp: CString, path: CString) returns (nv: array<Slot>)
    requires depth <= MAX_SHEBANG_DEPTH && ArgvOk(argv, depth)
    modifies if depth == 0 then {} else {argv}
    ensures ArgvOk(nv, depth + 1)
    ensures Vector(nv[..]) == Rewritten(old(Vector(argv[..])), interp, path)
    ensures depth == 0 ==> fresh(nv)
    ensures depth > 0 ==> nv == argv
  {
    if depth == 0 {
      nv := FreshVector(argv, interp, path);
    } else {
      ShiftVector(argv, interp, path);
      nv := argv;
    }
  }

  /** Lines 100-125 and 172-174: reads the ELF header, makes a new address
      space and loads the program into it; a space made for a refused
      program is released (`built` is the space `setupkvm` returned, if
      any). */
  method LoadProgram(env: Env, f: File) returns (res: Result<(AddressSpace, u32, u32)>, ghost built: AddressSpace?)
    ensures res.Err? && built != null ==> fresh(built) && built.freed
    ensures res.Ok? ==> built == res.value.0
    ensures var spec := ProgramSpec(env, f);
      (res.Ok? <==> spec.Ok?) && (res.Err? ==> res.error == spec.error)
    ensures res.Ok? ==> var (pgdir, sz, entry) := res.value;
      fresh(pgdir) && pgdir.Valid() && !pgdir.freed && pgdir.guard == {} && pgdir.limit == env.machine.limit &&
      ProgramSpec(env, f).value == Program(entry, LoadState(sz, pgdir.mem))
  {
    built := null;
    var h := ReadI(f, 0, ELFHDR_SIZE);
    if h.None? || |h.value| != ELFHDR_SIZE {
      return Err(InvalidELFMagic), built;
    }
    var eh := DecodeElfHeader(h.value);
    if eh.magic != ELF_MAGIC {
      return Err(InvalidELFMagic), built;
    }
    var pgdir := SetupKvm(env.machine);
    if pgdir == null {
      return Err(AddressSpaceExhausted), built;
    }
    built := pgdir;
    var sz := LoadSegments(f, eh, pgdir);
    if sz.Err? {
      pgdir.FreeVm();
      return Err(sz.error), built;
    }
    return Ok((pgdir, sz.value, eh.entry)), built;
  }

  /** Lines 163-169: the process switches to the new space, size and
      registers, then the old space is released. */
  method Commit(p: Proc, pgdir: AddressSpace, name: CString, sz: u32, entry: u32, sp: u32)
    requires pgdir != p.pgdir
    modifies p, p.tf, p.pgdir
    ensures View(p) == ProcView(name, pgdir, sz, entry, sp)
    ensures old(p.pgdir).freed && old(p.pgdir).mem == old(p.pgdir.mem) && old(p.pgdir).guard == old(p.pgdir.guard)
    ensures pgdir.mem == old(pgdir.mem) && pgdir.guard == old(pgdir.guard) && pgdir.freed == old(pgdir.freed)
  {
    var oldpgdir := p.pgdir;
    p.name := name;
    p.pgdir := pgdir;
    p.sz := sz;
    p.tf.eip := entry;
    p.tf.esp := sp;
    oldpgdir.FreeVm();
  }

  /** Lines 100-179 for a file without a directive, with the log
      operation of this level still open: the operation is ended once,
      and the process is replaced only when the whole image is built; on
      failure the space made for the image (`built`, if any) is released. */
  method RunBinary(env: Env, path: CString, f: File, argv: array<Slot>, p: Proc, log: Log)
    returns (res: Result<()>, ghost built: AddressSpace?)
    requires Terminated(argv[..])
    modifies p, p.tf, p.pgdir, log
    ensures res.Err? && built != null ==> fresh(built) && built.freed
    ensures res.Ok? ==> built == p.pgdir
    ensures log.outstanding == old(log.outstanding) - 1
    ensures var spec := BinarySpec(env, path, f, Vector(argv[..]));
      (res.Ok? <==> spec.Ok?) && (res.Err? ==> res.error == spec.error) &&
      (res.Ok? ==> Runs(p, spec.value))
    ensures res.Err? ==> View(p) == old(View(p)) && unchanged(p.pgdir)
    ensures res.Ok? ==>
      fresh(p.pgdir) && old(p.pgdir).freed &&
      old(p.pgdir).mem == old(p.pgdir.mem) && old(p.pgdir).guard == old(p.pgdir.guard)
  {
    ghost var args := Vector(argv[..]);
    ghost var spec := BinarySpec(env, path, f, args);
    var ld;
    ld, built := LoadProgram(env, f);
    log.EndOp();
    if ld.Err? {
      return Err(ld.error), built;
    }
    var (pgdir, sz, entry) := ld.value;
    ghost var stack := UserStack(args, env.machine.limit, sz, pgdir.mem, {});
    var top := BuildUserStack(pgdir, sz, argv);
    if top.Err? {
      assert spec == Err(top.error);
      pgdir.FreeVm();
      return Err(top.error), built;
    }
    var name := NameOf(path);
    assert spec == Ok(Image(name, top.value.sz, pgdir.mem, pgdir.guard, entry, top.value.sp));
    Commit(p, pgdir, name, top.value.sz, entry, top.value.sp);
    return Ok(()), built;
  }

  /** `exec_rec(path, argv, depth)`, with the depth-limit refusal leaving
      the log as it found it. */
  method ExecRec(env: Env, path: CString, argv: array<Slot>, depth: nat, p: Proc, log: Log) returns (res: Result<()>)
    requires depth <= MAX_SHEBANG_DEPTH + 1 && ArgvOk(argv, depth)
    modifies argv, p, p.tf, p.pgdir, log
    decreases MAX_SHEBANG_DEPTH + 1 - depth, 1
    ensures log.outstanding == old(log.outstanding)
    ensures var spec := ExecSpec(env, path, old(Vector(argv[..])), depth);
      (res.Ok? <==> spec.Ok?) && (res.Err? ==> res.error == spec.error) &&
      (res.Ok? ==> Runs(p, spec.value))
    ensures res.Err? ==> View(p) == old(View(p)) && unchanged(p.pgdir)
    ensures res.Ok? ==>
      fresh(p.pgdir) && old(p.pgdir).freed &&
      old(p.pgdir).mem == old(p.pgdir.mem) && old(p.pgdir).guard == old(p.pgdir.guard)
    ensures depth == 0 ==> argv[..] == old(argv[..])
    ensures depth > MAX_SHEBANG_DEPTH ==> unchanged(argv)
  {
    if depth > MAX_SHEBANG_DEPTH {
      return Err(TooManyInterpreterLevels);
    }
    log.BeginOp();
    if path !in env.files {
      log.EndOp();
      return Err(PathNotFound);
    }
    var f := env.files[path];
    var b := ReadI(f, 0, 2);
    if b.None? || |b.value| != 2 {
      log.EndOp();
      return Err(FileIOError);
    }
    if b.value[0] == HASH && b.value[1] == BANG {
      res := FollowDirective(env, path, f, argv, depth, p, log);
    } else {
      ghost var built;
      res, built := RunBinary(env, path, f, argv, p, log);
    }
  }

  /** Lines 47-98, with the log operation of this level still open: the
      interpreter path is read, the vector rewritten, the operation ended,
      and the load restarted one level deeper. */
  method FollowDirective(env: Env, path: CString, f: File, argv: array<Slot>, depth: nat, p: Proc, log: Log)
    returns (res: Result<()>)
    requires depth <= MAX_SHEBANG_DEPTH && HasDirective(f) && ArgvOk(argv, depth)
    modifies argv, p, p.tf, p.pgdir, log
    decreases MAX_SHEBANG_DEPTH + 1 - depth, 0
    ensures log.outstanding == old(log.outstanding) - 1
    ensures var spec := DirectiveSpec(env, path, f, old(Vector(argv[..])), depth);
      (res.Ok? <==> spec.Ok?) && (res.Err? ==> res.error == spec.error) &&
      (res.Ok? ==> Runs(p, spec.value))
    ensures res.Err? ==> View(p) == old(View(p)) && unchanged(p.pgdir)
    ensures res.Ok? ==>
      fresh(p.pgdir) && old(p.pgdir).freed &&
      old(p.pgdir).mem == old(p.pgdir.mem) && old(p.pgdir).guard == old(p.pgdir.guard)
    ensures depth == 0 ==> argv[..] == old(argv[..])
  {
    var interp := ReadInterpreter(f);
    if interp.Err? {
      log.EndOp();
      return Err(interp.error);
    }
    var nv := RewriteArgs(argv, depth, interp.value, path);
    log.EndOp();
    res := ExecRec(env, interp.value, nv, depth + 1, p, log);
  }

  /** `exec(path, argv)`: 0 when the process now runs the new image, -1
      when it still runs the old one. */
  method Exec(env: Env, path: CString, argv: array<Slot>, p: Proc, log: Log) returns (status: int)
    requires ArgvOk(argv, 0)
    modifies argv, p, p.tf, p.pgdir, log
    ensures var spec := ExecSpec(env, path, old(Vector(argv[..])), 0);
      (status == 0 <==> spec.Ok?) && (status != 0 <==> status == -1) &&
      (spec.Ok? ==> Runs(p, spec.value))
    ensures status != 0 ==> View(p) == old(View(p)) && unchanged(p.pgdir)
    ensures argv[..] == old(argv[..]) && log.outstanding == old(log.outstanding)
  {
    var res := ExecRec(env, path, argv, 0, p, log);
    status := if res.Ok? then 0 else -1;
  }
}
