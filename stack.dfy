/** The user stack of a new image (exec.c, lines 130-155): two pages are mapped at
    the next page boundary above the loaded segments, the lower one loses
    user access and becomes a guard page, the argument strings are pushed
    onto the upper one, and below them a frame with a fake return address,
    `argc` and the `argv` array, as `main(argc, argv)` expects. Line
    numbers in this module refer to exec.c. */
module Stack {
  import opened Base
  import opened Arith
  import opened Elf
  import opened Vm
  import opened Directive

  /** The state of the push loop: the memory, the stack pointer and the
      addresses of the strings pushed so far (`ustack[3..3 + argc]`). */
  datatype PushState = PushState(mem: seq<byte>, sp: u32, ptrs: seq<u32>)

  /** The push loop (lines 139-146) from argument `k` on: more than MAXARG
      arguments are refused; each string with its NUL is copied to the next
      4-aligned address below `sp`, and a copy user code could not make
      fails the build. */
  function PushFrom(guard: set<nat>, args: seq<CString>, k: nat, st: PushState): (r: Result<PushState>)
    requires |st.ptrs| == k <= |args| && k <= MAXARG
    ensures r.Ok? ==> |r.value.ptrs| == |args| <= MAXARG && |r.value.mem| == |st.mem|
    decreases |args| - k
  {
    if k == |args| then Ok(st)
    else if k >= MAXARG then Err(ArgumentCountExceeded)
    else
      var n := |args[k]| + 1;
      var sp := AlignDown4(Sub32(st.sp, n));
      if !UserRange(|st.mem|, guard, sp, n) then Err(StackBuildFailure)
      else PushFrom(guard, args, k + 1, PushState(Write(st.mem, sp, args[k] + [NUL]), sp, st.ptrs + [sp]))
  }

  /** The words of `ustack` (lines 147-151): fake return PC, `argc`, the
      address the `argv` array will have, the string addresses, and the
      null pointer ending `argv`. */
  function FrameWords(ptrs: seq<u32>, sp: u32): (ws: seq<u32>)
    requires |ptrs| <= MAXARG
    ensures |ws| == |ptrs| + 4
  {
    [0xffffffff, |ptrs|, Sub32(sp, (|ptrs| + 1) * 4)] + ptrs + [0]
  }

  /** The result of lines 130-155: the new size, memory and guard pages, and
      the stack pointer the process starts with. */
  datatype StackImage = StackImage(sz: u32, mem: seq<byte>, guard: set<nat>, sp: u32)

  /** Lines 130-155 on the space the loop left: `sz` bytes in `mem`. */
  function UserStack(args: seq<CString>, limit: nat, sz: u32, mem: seq<byte>, guard: set<nat>): (r: Result<StackImage>)
    requires |mem| == sz < KERNBASE
    ensures r.Ok? ==> |r.value.mem| == r.value.sz < KERNBASE
  {
    var base := PgRoundUp(sz);
    var nsz := AllocResult(base, base + 2 * PGSIZE, limit);
    if nsz == 0 then Err(AddressSpaceExhausted)
    else
      var g := guard + {(nsz - 2 * PGSIZE) / PGSIZE};
      match PushFrom(g, args, 0, PushState(Grown(mem, nsz), nsz, []))
      case Err(e) => Err(e)
      case Ok(ps) => PlaceFrame(nsz, g, ps)
  }

  /** Lines 147-155: the frame is copied to `(3 + argc + 1) * 4` bytes below
      the last string; a copy user code could not make fails the build. */
  function PlaceFrame(nsz: u32, g: set<nat>, ps: PushState): (r: Result<StackImage>)
    requires |ps.ptrs| <= MAXARG && |ps.mem| == nsz < KERNBASE
    ensures r.Ok? ==> |r.value.mem| == r.value.sz < KERNBASE
  {
    var sp := Sub32(ps.sp, (|ps.ptrs| + 4) * 4);
    var data := WordBytes(FrameWords(ps.ptrs, ps.sp));
    if !UserRange(|ps.mem|, g, sp, |data|) then Err(StackBuildFailure)
    else Ok(StackImage(nsz, Write(ps.mem, sp, data), g, sp))
  }

  /** Every string pushed so far sits, NUL-terminated, at its address,
      between `sp` and `top`. */
  predicate Pushed(mem: seq<byte>, args: seq<CString>, ptrs: seq<u32>, sp: nat, top: nat)
  {
    |ptrs| <= |args| && top <= |mem| &&
    forall j | 0 <= j < |ptrs| ::
      sp <= ptrs[j] && ptrs[j] + |args[j]| + 1 <= top &&
      mem[ptrs[j]..ptrs[j] + |args[j]| + 1] == args[j] + [NUL]
  }

  /** A range that `UserRange` admits, ends above the guard page below the
      stack page `[top - PGSIZE, top)` and does not leave the space lies
      entirely inside the stack page. */
  lemma AboveGuard(top: nat, guard: set<nat>, va: int, n: nat)
    requires top % PGSIZE == 0 && 2 * PGSIZE <= top && (top - 2 * PGSIZE) / PGSIZE in guard
    requires UserRange(top, guard, va, n) && top - 2 * PGSIZE < va + n
    ensures top - PGSIZE <= va && va + n <= top
  {
    var p := (top - 2 * PGSIZE) / PGSIZE;
    assert p * PGSIZE == top - 2 * PGSIZE;
    assert (p + 1) * PGSIZE == top - PGSIZE;
  }

  /** One push on the stack page keeps every earlier string, lands the new
      one at the new, lower `sp`, and writes nothing under the page. */
  lemma PushStep(guard: set<nat>, args: seq<CString>, k: nat, st: PushState, top: nat)
    requires top % PGSIZE == 0 && 2 * PGSIZE <= top < KERNBASE && (top - 2 * PGSIZE) / PGSIZE in guard
    requires |st.mem| == top && top - PGSIZE <= st.sp <= top && st.sp % 4 == 0
    requires |st.ptrs| == k < |args| && k < MAXARG
    requires Pushed(st.mem, args, st.ptrs, st.sp, top)
    requires UserRange(top, guard, AlignDown4(Sub32(st.sp, |args[k]| + 1)), |args[k]| + 1)
    ensures var sp := AlignDown4(Sub32(st.sp, |args[k]| + 1));
      var mem := Write(st.mem, sp, args[k] + [NUL]);
      top - PGSIZE <= sp <= st.sp && sp % 4 == 0 &&
      Pushed(mem, args, st.ptrs + [sp], sp, top) && mem[..top - PGSIZE] == st.mem[..top - PGSIZE]
  {
    var n := |args[k]| + 1;
    var sp := AlignDown4(Sub32(st.sp, n));
    var data := args[k] + [NUL];
    PushBelow(st.sp, n);
    AboveGuard(top, guard, sp, n);
    assert sp + n <= st.sp;
    var mem := Write(st.mem, sp, data);
    var ptrs := st.ptrs + [sp];
    forall j | 0 <= j < k
      ensures mem[ptrs[j]..ptrs[j] + |args[j]| + 1] == args[j] + [NUL]
    {
      WriteKeeps(st.mem, sp, data, st.ptrs[j], st.ptrs[j] + |args[j]| + 1);
    }
    WriteKeeps(st.mem, sp, data, 0, top - PGSIZE);
  }

  /** A push loop that completes on a stack page `[top - PGSIZE, top)` with
      the guard page below it has kept every string inside that page,
      intact at its address, with `sp` 4-aligned below them all; nothing
      under the stack page has been written. */
  lemma {:induction false} PushFromOk(guard: set<nat>, args: seq<CString>, k: nat, st: PushState, st': PushState, top: nat)
    requires top % PGSIZE == 0 && 2 * PGSIZE <= top < KERNBASE && (top - 2 * PGSIZE) / PGSIZE in guard
    requires |st.mem| == top && top - PGSIZE <= st.sp <= top && st.sp % 4 == 0
    requires |st.ptrs| == k <= |args| && k <= MAXARG
    requires Pushed(st.mem, args, st.ptrs, st.sp, top)
    requires PushFrom(guard, args, k, st) == Ok(st')
    ensures |st'.mem| == top && top - PGSIZE <= st'.sp <= top && st'.sp % 4 == 0
    ensures Pushed(st'.mem, args, st'.ptrs, st'.sp, top)
    ensures st'.mem[..top - PGSIZE] == st.mem[..top - PGSIZE]
    decreases |args| - k
  {
    if k < |args| {
      var sp := AlignDown4(Sub32(st.sp, |args[k]| + 1));
      PushStep(guard, args, k, st, top);
      PushFromOk(guard, args, k + 1, PushState(Write(st.mem, sp, args[k] + [NUL]), sp, st.ptrs + [sp]), st', top);
    }
  }

  /** Memory holding `WordBytes(ws)` at `at` reads back word `i` at `at + 4 * i`. */
  lemma FrameWord(mem: seq<byte>, at: nat, ws: seq<u32>, i: nat)
    requires at + 4 * |ws| <= |mem| && mem[at..at + 4 * |ws|] == WordBytes(ws)
    requires i < |ws|
    ensures U32At(mem, at + 4 * i) == ws[i]
  {
    WordAt(ws, i);
    SliceWord(mem, at, WordBytes(ws), 4 * i);
  }

  /** Entry `k` of the `argv` array that starts 12 bytes above `sp` points
      at argument `k`, stored with its terminating NUL. */
  predicate ArgStored(mem: seq<byte>, sp: nat, args: seq<CString>, k: nat)
  {
    k < |args| && sp + 16 + 4 * k <= |mem| &&
    var p := U32At(mem, sp + 12 + 4 * k);
    p + |args[k]| + 1 <= |mem| && mem[p..p + |args[k]| + 1] == args[k] + [NUL]
  }

  /** A frame placed below strings that a completed push loop left on the
      stack page stays on that page, above the guard page, and leaves the
      strings and everything under the stack page as they were. */
  lemma PlaceFrameOk(nsz: u32, g: set<nat>, args: seq<CString>, ps: PushState)
    requires nsz % PGSIZE == 0 && 2 * PGSIZE <= nsz < KERNBASE && (nsz - 2 * PGSIZE) / PGSIZE in g
    requires |ps.mem| == nsz && nsz - PGSIZE <= ps.sp <= nsz && ps.sp % 4 == 0
    requires |ps.ptrs| == |args| <= MAXARG && Pushed(ps.mem, args, ps.ptrs, ps.sp, nsz)
    requires PlaceFrame(nsz, g, ps).Ok?
    ensures var img := PlaceFrame(nsz, g, ps).value;
      img.sz == nsz && img.guard == g && img.mem[..nsz - PGSIZE] == ps.mem[..nsz - PGSIZE] &&
      img.sp == ps.sp - 4 * (|args| + 4) && nsz - PGSIZE <= img.sp && img.sp % 4 == 0 &&
      img.mem[img.sp..ps.sp] == WordBytes(FrameWords(ps.ptrs, ps.sp)) &&
      Pushed(img.mem, args, ps.ptrs, ps.sp, nsz)
  {
    var img := PlaceFrame(nsz, g, ps).value;
    var data := WordBytes(FrameWords(ps.ptrs, ps.sp));
    var sp := Sub32(ps.sp, (|args| + 4) * 4);
    assert sp == ps.sp - 4 * (|args| + 4);
    AboveGuard(nsz, g, sp, |data|);
    WriteKeeps(ps.mem, sp, data, 0, nsz - PGSIZE);
    WriteBelowKeeps(ps.mem, sp, data, args, ps.ptrs, ps.sp, nsz);
  }

  /** A write that ends at or below `sp` keeps every pushed string. */
  lemma WriteBelowKeeps(mem: seq<byte>, va: nat, data: seq<byte>, args: seq<CString>, ptrs: seq<u32>, sp: nat, top: nat)
    requires va + |data| <= sp <= |mem| && Pushed(mem, args, ptrs, sp, top)
    ensures Pushed(Write(mem, va, data), args, ptrs, sp, top)
  {
    forall j | 0 <= j < |ptrs|
      ensures Write(mem, va, data)[ptrs[j]..ptrs[j] + |args[j]| + 1] == args[j] + [NUL]
    {
      WriteKeeps(mem, va, data, ptrs[j], ptrs[j] + |args[j]| + 1);
    }
  }

  /** The frame reads back as the fake return PC, `argc`, the address of
      the `argv` array that follows, and the entries of that array, each
      pointing at its string, with a null pointer after them. */
  lemma FrameReads(mem: seq<byte>, sp: nat, args: seq<CString>, ptrs: seq<u32>, top: u32)
    requires |ptrs| == |args| <= MAXARG && top == sp + 4 * (|args| + 4) <= |mem|
    requires mem[sp..top] == WordBytes(FrameWords(ptrs, top))
    requires Pushed(mem, args, ptrs, top, |mem|)
    ensures MainFrame(mem, sp, args)
  {
    var ws := FrameWords(ptrs, top);
    FrameWordsAt(ptrs, top);
    SubNoWrap(top, (|ptrs| + 1) * 4);
    assert ws[2] == sp + 12;
    FrameWord(mem, sp, ws, 0);
    FrameWord(mem, sp, ws, 1);
    FrameWord(mem, sp, ws, 2);
    FrameWord(mem, sp, ws, |args| + 3);
    FrameArgs(mem, sp, args, ptrs, top);
  }

  /** The entries of the `argv` array in the frame point at the strings. */
  lemma FrameArgs(mem: seq<byte>, sp: nat, args: seq<CString>, ptrs: seq<u32>, top: u32)
    requires |ptrs| == |args| <= MAXARG && top == sp + 4 * (|args| + 4) <= |mem|
    requires mem[sp..top] == WordBytes(FrameWords(ptrs, top))
    requires Pushed(mem, args, ptrs, top, |mem|)
    ensures forall k | 0 <= k < |args| :: ArgStored(mem, sp, args, k)
  {
    var ws := FrameWords(ptrs, top);
    FrameWordsAt(ptrs, top);
    forall k | 0 <= k < |args|
      ensures ArgStored(mem, sp, args, k)
    {
      FrameWord(mem, sp, ws, k + 3);
      StoredAt(mem, sp, args, ptrs, top, k);
    }
  }

  /** The words of the frame, one by one. */
  lemma FrameWordsAt(ptrs: seq<u32>, sp: u32)
    requires |ptrs| <= MAXARG
    ensures var ws := FrameWords(ptrs, sp);
      ws[0] == 0xffffffff && ws[1] == |ptrs| && ws[2] == Sub32(sp, (|ptrs| + 1) * 4) &&
      ws[|ptrs| + 3] == 0 && forall k | 0 <= k < |ptrs| :: ws[k + 3] == ptrs[k]
  {
  }

  /** An `argv` entry holding the address of a pushed string points at it. */
  lemma StoredAt(mem: seq<byte>, sp: nat, args: seq<CString>, ptrs: seq<u32>, top: nat, k: nat)
    requires |ptrs| == |args| && k < |args| && sp + 16 + 4 * k <= |mem|
    requires Pushed(mem, args, ptrs, top, |mem|)
    requires U32At(mem, sp + 4 * (k + 3)) == ptrs[k]
    ensures ArgStored(mem, sp, args, k)
  {
  }

  /** The frame `main(argc, argv)` finds at `sp`: the fake return PC,
      `argc`, a pointer to the `argv` array right after it, whose entries
      point at the argument strings, and the null pointer ending `argv`. */
  predicate MainFrame(mem: seq<byte>, sp: nat, args: seq<CString>)
  {
    sp + 16 + 4 * |args| <= |mem| &&
    U32At(mem, sp) == 0xffffffff && U32At(mem, sp + 4) == |args| &&
    U32At(mem, sp + 8) == sp + 12 && U32At(mem, sp + 12 + 4 * |args|) == 0 &&
    forall k | 0 <= k < |args| :: ArgStored(mem, sp, args, k)
  }

  /** The pages a successful build adds: two, at the next page boundary
      above the loaded segments, the lower one made inaccessible to user
      code; the memory of the segments is left as it was. */
  lemma UserStackPages(args: seq<CString>, limit: nat, sz: u32, mem: seq<byte>, guard: set<nat>)
    requires |mem| == sz < KERNBASE
    requires UserStack(args, limit, sz, mem, guard).Ok?
    ensures var img := UserStack(args, limit, sz, mem, guard).value;
      img.sz == PgRoundUp(sz) + 2 * PGSIZE && img.guard == guard + {(img.sz - 2 * PGSIZE) / PGSIZE} &&
      img.mem[..sz] == mem
  {
    var nsz, g, ps := UserStackParts(args, limit, sz, mem, guard);
    var start := PushState(Grown(mem, nsz), nsz, []);
    PushFromOk(g, args, 0, start, ps, nsz);
    PlaceFrameOk(nsz, g, args, ps);
    var img := PlaceFrame(nsz, g, ps).value;
    assert img.sz == nsz && img.guard == g;
    assert img.mem[..sz] == mem by {
      assert img.mem[..sz] == img.mem[..nsz - PGSIZE][..sz];
      assert start.mem[..nsz - PGSIZE][..sz] == mem;
    }
  }

  /** The stack a successful build leaves: at most MAXARG arguments, and
      `sp` 4-aligned in the upper of the two new pages, at the frame
      `main(argc, argv)` expects, with every argument string in place. */
  lemma UserStackLayout(args: seq<CString>, limit: nat, sz: u32, mem: seq<byte>, guard: set<nat>)
    requires |mem| == sz < KERNBASE
    requires UserStack(args, limit, sz, mem, guard).Ok?
    ensures var img := UserStack(args, limit, sz, mem, guard).value;
      |args| <= MAXARG && img.sz - PGSIZE <= img.sp && img.sp + 4 * (|args| + 4) <= img.sz &&
      img.sp % 4 == 0 && MainFrame(img.mem, img.sp, args)
  {
    var nsz, g, ps := UserStackParts(args, limit, sz, mem, guard);
    var start := PushState(Grown(mem, nsz), nsz, []);
    PushFromOk(g, args, 0, start, ps, nsz);
    PlaceFrameOk(nsz, g, args, ps);
    var img := PlaceFrame(nsz, g, ps).value;
    FrameReads(img.mem, img.sp, args, ps.ptrs, ps.sp);
  }

  /** A successful build is the push loop on the two new pages, then the
      frame. */
  lemma UserStackParts(args: seq<CString>, limit: nat, sz: u32, mem: seq<byte>, guard: set<nat>)
    returns (nsz: u32, g: set<nat>, ps: PushState)
    requires |mem| == sz < KERNBASE
    requires UserStack(args, limit, sz, mem, guard).Ok?
    ensures nsz == PgRoundUp(sz) + 2 * PGSIZE && nsz % PGSIZE == 0 && 2 * PGSIZE <= nsz < KERNBASE
    ensures g == guard + {(nsz - 2 * PGSIZE) / PGSIZE} && nsz % 4 == 0
    ensures PushFrom(g, args, 0, PushState(Grown(mem, nsz), nsz, [])) == Ok(ps)
    ensures UserStack(args, limit, sz, mem, guard) == PlaceFrame(nsz, g, ps)
  {
    var base := PgRoundUp(sz);
    nsz := AllocResult(base, base + 2 * PGSIZE, limit);
    assert nsz == base + 2 * PGSIZE;
    assert nsz != 0;
    g := guard + {(nsz - 2 * PGSIZE) / PGSIZE};
    UserStackAfterAlloc(args, limit, sz, mem, guard, nsz, g);
    ps := PushFrom(g, args, 0, PushState(Grown(mem, nsz), nsz, [])).value;
    TwoPagesUp(base);
  }

  /** Once the two pages are mapped, the build is the push loop followed
      by the frame. */
  lemma UserStackAfterAlloc(args: seq<CString>, limit: nat, sz: u32, mem: seq<byte>, guard: set<nat>,
                            nsz: u32, g: set<nat>)
    requires |mem| == sz < KERNBASE
    requires nsz == AllocResult(PgRoundUp(sz), PgRoundUp(sz) + 2 * PGSIZE, limit) != 0
    requires g == guard + {(nsz - 2 * PGSIZE) / PGSIZE}
    ensures var pf := PushFrom(g, args, 0, PushState(Grown(mem, nsz), nsz, []));
      (pf.Err? ==> UserStack(args, limit, sz, mem, guard) == Err(pf.error)) &&
      (pf.Ok? ==> UserStack(args, limit, sz, mem, guard) == PlaceFrame(nsz, g, pf.value))
  {
    var base := PgRoundUp(sz);
    assert sz <= base && nsz == base + 2 * PGSIZE < KERNBASE;
    assert |Grown(mem, nsz)| == nsz;
  }

  /** Two pages above a page boundary is a page boundary, and 4-aligned. */
  lemma TwoPagesUp(x: nat)
    requires x % PGSIZE == 0
    ensures (x + 2 * PGSIZE) % PGSIZE == 0 && (x + 2 * PGSIZE) % 4 == 0
  {
    var q := x / PGSIZE;
    assert x + 2 * PGSIZE == PGSIZE * (q + 2);
    assert x + 2 * PGSIZE == 4 * (1024 * (q + 2));
  }

  /** More than MAXARG arguments never yield a stack. */
  lemma {:induction false} PushFromTooMany(guard: set<nat>, args: seq<CString>, k: nat, st: PushState)
    requires |st.ptrs| == k <= MAXARG < |args|
    ensures PushFrom(guard, args, k, st).Err?
    decreases MAXARG - k
  {
    if k < MAXARG {
      var n := |args[k]| + 1;
      var sp := AlignDown4(Sub32(st.sp, n));
      if UserRange(|st.mem|, guard, sp, n) {
        PushFromTooMany(guard, args, k + 1, PushState(Write(st.mem, sp, args[k] + [NUL]), sp, st.ptrs + [sp]));
      }
    }
  }

  lemma UserStackTooMany(args: seq<CString>, limit: nat, sz: u32, mem: seq<byte>, guard: set<nat>)
    requires |mem| == sz < KERNBASE && MAXARG < |args|
    ensures UserStack(args, limit, sz, mem, guard).Err?
  {
    var base := PgRoundUp(sz);
    var nsz := AllocResult(base, base + 2 * PGSIZE, limit);
    if nsz != 0 {
      PushFromTooMany(guard + {(nsz - 2 * PGSIZE) / PGSIZE}, args, 0, PushState(Grown(mem, nsz), nsz, []));
    }
  }

  /** The errors the push loop reports. */
  lemma {:induction false} PushFromErrors(guard: set<nat>, args: seq<CString>, k: nat, st: PushState)
    requires |st.ptrs| == k <= |args| && k <= MAXARG
    ensures PushFrom(guard, args, k, st).Err? ==>
      PushFrom(guard, args, k, st).error in {ArgumentCountExceeded, StackBuildFailure}
    decreases |args| - k
  {
    if k < |args| && k < MAXARG {
      var n := |args[k]| + 1;
      var sp := AlignDown4(Sub32(st.sp, n));
      if UserRange(|st.mem|, guard, sp, n) {
        PushFromErrors(guard, args, k + 1, PushState(Write(st.mem, sp, args[k] + [NUL]), sp, st.ptrs + [sp]));
      }
    }
  }

  /** The errors building the stack reports. */
  lemma UserStackErrors(args: seq<CString>, limit: nat, sz: u32, mem: seq<byte>, guard: set<nat>)
    requires |mem| == sz < KERNBASE
    ensures UserStack(args, limit, sz, mem, guard).Err? ==>
      UserStack(args, limit, sz, mem, guard).error in {AddressSpaceExhausted, ArgumentCountExceeded, StackBuildFailure}
  {
    var base := PgRoundUp(sz);
    var nsz := AllocResult(base, base + 2 * PGSIZE, limit);
    if nsz != 0 {
      PushFromErrors(guard + {(nsz - 2 * PGSIZE) / PGSIZE}, args, 0, PushState(Grown(mem, nsz), nsz, []));
    }
  }

  /** The stack's position and the size of the image. */
  datatype StackTop = StackTop(sz: u32, sp: u32)

  /** One step of the push loop. */
  lemma PushFromNext(guard: set<nat>, args: seq<CString>, k: nat, st: PushState)
    requires |st.ptrs| == k < |args| && k < MAXARG
    ensures var n := |args[k]| + 1;
      var sp := AlignDown4(Sub32(st.sp, n));
      PushFrom(guard, args, k, st) ==
        if !UserRange(|st.mem|, guard, sp, n) then Err(StackBuildFailure)
        else PushFrom(guard, args, k + 1, PushState(Write(st.mem, sp, args[k] + [NUL]), sp, st.ptrs + [sp]))
  {
  }

  /** One pass of the push loop: copies `s`, the `k`-th argument, below
      `sp` and records where it went in `ustack[3 + k]`. */
  method PushString(pgdir: AddressSpace, ustack: array<u32>, ghost args: seq<CString>, k: nat,
                    s: CString, sp: u32, ghost ptrs: seq<u32>) returns (ok: bool, nsp: u32)
    requires pgdir.Valid() && ustack.Length == 3 + MAXARG + 1
    requires k < |args| && k < MAXARG && s == args[k] && |ptrs| == k && ustack[3..3 + k] == ptrs
    modifies pgdir, ustack
    ensures pgdir.Valid() && pgdir.guard == old(pgdir.guard) && pgdir.freed == old(pgdir.freed)
    ensures ok ==> ustack[3..3 + k + 1] == ptrs + [nsp]
    ensures PushFrom(pgdir.guard, args, k, PushState(old(pgdir.mem), sp, ptrs)) ==
      if ok then PushFrom(pgdir.guard, args, k + 1, PushState(pgdir.mem, nsp, ptrs + [nsp]))
      else Err(StackBuildFailure)
  {
    PushFromNext(pgdir.guard, args, k, PushState(pgdir.mem, sp, ptrs));
    nsp := AlignDown4(Sub32(sp, |s| + 1));
    ok := pgdir.CopyOut(nsp, s + [NUL]);
    if ok {
      ustack[3 + k] := nsp;
      assert ustack[3..3 + k + 1] == ptrs + [nsp];
    }
  }

  /** The push loop of lines 139-147, from an empty `ustack`; on success
      `argc` is the number of arguments and `ustack[3..3 + argc]` their
      addresses. */
  method PushArgs(pgdir: AddressSpace, argv: array<Slot>, ustack: array<u32>, sp0: u32)
    returns (res: Result<u32>, argc: nat)
    requires pgdir.Valid() && Terminated(argv[..]) && ustack.Length == 3 + MAXARG + 1
    modifies pgdir, ustack
    ensures pgdir.Valid() && pgdir.guard == old(pgdir.guard) && pgdir.freed == old(pgdir.freed)
    ensures var spec := PushFrom(old(pgdir.guard), Vector(argv[..]), 0, PushState(old(pgdir.mem), sp0, []));
      (res.Ok? <==> spec.Ok?) && (res.Err? ==> res.error == spec.error) &&
      (res.Ok? ==> argc == |Vector(argv[..])| <= MAXARG &&
                   spec.value == PushState(pgdir.mem, res.value, ustack[3..3 + argc]))
  {
    ghost var args := Vector(argv[..]);
    ghost var g := pgdir.guard;
    ghost var start := PushState(pgdir.mem, sp0, []);
    ghost var ptrs: seq<u32> := [];
    var sp := sp0;
    argc := 0;
    while argv[argc] != Null
      invariant 0 <= argc <= |args| && argc <= MAXARG && |ptrs| == argc
      invariant pgdir.Valid() && pgdir.guard == g && pgdir.freed == old(pgdir.freed)
      invariant ustack[3..3 + argc] == ptrs
      invariant PushFrom(g, args, 0, start) == PushFrom(g, args, argc, PushState(pgdir.mem, sp, ptrs))
      decreases |args| - argc
    {
      if argc >= MAXARG {
        return Err(ArgumentCountExceeded), argc;
      }
      var ok;
      ok, sp := PushString(pgdir, ustack, args, argc, argv[argc].s, sp, ptrs);
      if !ok {
        return Err(StackBuildFailure), argc;
      }
      ptrs := ptrs + [sp];
      argc := argc + 1;
    }
    return Ok(sp), argc;
  }

  /** Lines 147-155: fills in the rest of `ustack` and copies the frame
      below the strings. */
  method PushFrame(pgdir: AddressSpace, ustack: array<u32>, argc: nat, sp0: u32) returns (res: Result<u32>)
    requires pgdir.Valid() && ustack.Length == 3 + MAXARG + 1 && argc <= MAXARG
    modifies pgdir, ustack
    ensures pgdir.Valid() && pgdir.guard == old(pgdir.guard) && pgdir.freed == old(pgdir.freed)
    ensures var spec := PlaceFrame(|old(pgdir.mem)|, old(pgdir.guard), PushState(old(pgdir.mem), sp0, old(ustack[3..3 + argc])));
      |old(pgdir.mem)| < KERNBASE ==>
      (res.Ok? <==> spec.Ok?) && (res.Err? ==> res.error == spec.error) &&
      (res.Ok? ==> res.value == spec.value.sp && pgdir.mem == spec.value.mem)
  {
    ghost var ws := FrameWords(ustack[3..3 + argc], sp0);
    assert forall j | 3 <= j < 3 + argc :: ustack[j] == ws[j];
    ustack[3 + argc] := 0;
    ustack[0] := 0xffffffff;
    ustack[1] := argc;
    ustack[2] := Sub32(sp0, (argc + 1) * 4);
    assert forall j | 0 <= j < 3 + argc + 1 :: ustack[j] == ws[j];
    assert ustack[..3 + argc + 1] == ws;
    var sp := Sub32(sp0, (3 + argc + 1) * 4);
    var ok := pgdir.CopyOut(sp, WordBytes(ustack[..3 + argc + 1]));
    if !ok {
      return Err(StackBuildFailure);
    }
    return Ok(sp);
  }

  /** Lines 132-135: maps two pages at the next page boundary and removes
      user access from the lower one; returns the new size, or 0. */
  method StackPages(pgdir: AddressSpace, sz: u32) returns (nsz: u32)
    requires pgdir.Valid() && |pgdir.mem| == sz
    modifies pgdir
    ensures pgdir.Valid() && pgdir.freed == old(pgdir.freed)
    ensures nsz == AllocResult(PgRoundUp(sz), PgRoundUp(sz) + 2 * PGSIZE, pgdir.limit)
    ensures nsz != 0 ==> pgdir.mem == Grown(old(pgdir.mem), nsz) &&
                         pgdir.guard == old(pgdir.guard) + {(nsz - 2 * PGSIZE) / PGSIZE}
  {
    var base := PgRoundUp(sz);
    nsz := pgdir.AllocUvm(base, base + 2 * PGSIZE);
    if nsz != 0 {
      assert nsz == base + 2 * PGSIZE && sz <= base;
      pgdir.ClearPteU(nsz - 2 * PGSIZE);
    }
  }

  /** Lines 130-155 on the address space the loop built. */
  method BuildUserStack(pgdir: AddressSpace, sz: u32, argv: array<Slot>) returns (res: Result<StackTop>)
    requires pgdir.Valid() && |pgdir.mem| == sz && Terminated(argv[..])
    modifies pgdir
    ensures pgdir.Valid() && pgdir.freed == old(pgdir.freed)
    ensures var spec := UserStack(Vector(argv[..]), pgdir.limit, sz, old(pgdir.mem), old(pgdir.guard));
      (res.Ok? <==> spec.Ok?) && (res.Err? ==> res.error == spec.error) &&
      (res.Ok? ==> res.value == StackTop(spec.value.sz, spec.value.sp) &&
                   pgdir.mem == spec.value.mem && pgdir.guard == spec.value.guard)
  {
    ghost var args := Vector(argv[..]);
    ghost var spec := UserStack(args, pgdir.limit, sz, pgdir.mem, pgdir.guard);
    ghost var mem0 := pgdir.mem;
    var nsz := StackPages(pgdir, sz);
    if nsz == 0 {
      return Err(AddressSpaceExhausted);
    }
    UserStackAfterAlloc(args, pgdir.limit, sz, mem0, old(pgdir.guard), nsz, pgdir.guard);
    var ustack := new u32[3 + MAXARG + 1];
    var pushed, argc := PushArgs(pgdir, argv, ustack, nsz);
    if pushed.Err? {
      return Err(pushed.error);
    }
    var sp := PushFrame(pgdir, ustack, argc, pushed.value);
    if sp.Err? {
      return Err(sp.error);
    }
    return Ok(StackTop(nsz, sp.value));
  }
}
