/** Interpreter directives (`#!`): finding the interpreter path in the
    first line of a script, and rewriting the argument vector so that the
    interpreter runs with the script's path as its first argument (exec.c,
    lines 43-98). Line numbers in this module refer to exec.c. */
module Directive {
  import opened Base
  import opened Fs

  /** One entry of a `char **` argument array: a null pointer or a pointer
      to a C string. */
  datatype Slot = Null | Str(s: CString)

  /** The entries a `kalloc`ed page holds as an array of 4-byte pointers. */
  const ARGV_SLOTS: int := PGSIZE / 4

  /** The argument strings of a pointer array: the entries before its
      first null pointer. */
  function Vector(a: seq<Slot>): (v: seq<CString>)
    ensures |v| <= |a|
    ensures forall k | 0 <= k < |v| :: a[k] == Str(v[k])
    ensures |v| < |a| ==> a[|v|] == Null
  {
    if a == [] || a[0].Null? then [] else [a[0].s] + Vector(a[1..])
  }

  /** True when the array holds a null pointer ending its vector. */
  predicate Terminated(a: seq<Slot>)
  {
    |Vector(a)| < |a|
  }

  /** An array holding the strings of `v` in order, then a null pointer,
      holds the vector `v`. */
  lemma {:induction false} VectorIs(a: seq<Slot>, v: seq<CString>)
    requires |v| < |a| && a[|v|] == Null
    requires forall k | 0 <= k < |v| :: a[k] == Str(v[k])
    ensures Vector(a) == v
  {
    if v != [] {
      VectorIs(a[1..], v[1..]);
    }
  }

  /** The argument vector after a directive: the interpreter path, then
      the script's path, then the old arguments without the first. */
  function Rewritten(args: seq<CString>, interp: CString, path: CString): seq<CString>
  {
    [interp, path] + (if args == [] then [] else args[1..])
  }

  /** An array holding the interpreter, the script's path, then the
      entries of `o` from index 1 up to its null pointer, then a null
      pointer, holds the rewritten vector. */
  lemma RewrittenAt(o: seq<Slot>, a: seq<Slot>, interp: CString, path: CString, m: nat)
    requires Terminated(o) && m == (if |Vector(o)| == 0 then 1 else |Vector(o)|) && m + 1 < |a|
    requires a[0] == Str(interp) && a[1] == Str(path) && a[m + 1] == Null
    requires forall k | 2 <= k <= m :: a[k] == o[k - 1]
    ensures Vector(a) == Rewritten(Vector(o), interp, path)
  {
    var v := Vector(o);
    var r := Rewritten(v, interp, path);
    assert |r| == m + 1;
    forall k | 2 <= k <= m
      ensures a[k] == Str(r[k])
    {
      assert a[k] == o[k - 1] == Str(v[k - 1]);
    }
    VectorIs(a, r);
  }

  /** `' '` and `'\n'` end the interpreter path. */
  predicate IsTerminator(c: byte)
  {
    c == SPACE || c == NEWLINE
  }

  /** The index of the first space or newline in `s`, if there is one. */
  function FirstTerminator(s: seq<byte>): (r: Option<nat>)
    ensures r.Some? ==> r.value < |s| && IsTerminator(s[r.value])
    ensures r.Some? ==> forall k | 0 <= k < r.value :: !IsTerminator(s[k])
    ensures r.None? ==> forall k | 0 <= k < |s| :: !IsTerminator(s[k])
  {
    if s == [] then None
    else if IsTerminator(s[0]) then Some(0)
    else match FirstTerminator(s[1..])
      case None => None
      case Some(i) => Some(i + 1)
  }

  /** The C string stored at the start of `buf`: its bytes up to the first
      NUL, or all of them when there is none. */
  function CStrOf(buf: seq<byte>): (s: CString)
    requires |buf| + 1 < U32
    ensures |s| <= |buf| && s == buf[..|s|]
    ensures |s| < |buf| ==> buf[|s|] == NUL
  {
    if buf == [] || buf[0] == NUL then [] else [buf[0]] + CStrOf(buf[1..])
  }

  /** Bytes without a NUL are read back whole as a C string. */
  lemma {:induction false} CStrOfNoNul(buf: seq<byte>)
    requires |buf| + 1 < U32 && NoNul(buf)
    ensures CStrOf(buf) == buf
  {
    if buf != [] {
      CStrOfNoNul(buf[1..]);
    }
  }

  /** Writing a NUL at `i` cuts the C string at `i` at the latest. */
  lemma {:induction false} CStrOfCut(buf: seq<byte>, i: nat)
    requires |buf| + 1 < U32 && i < |buf| && buf[i] == NUL
    ensures CStrOf(buf) == CStrOf(buf[..i])
  {
    if i > 0 && buf[0] != NUL {
      assert buf[1..][..i - 1] == buf[..i][1..];
      CStrOfCut(buf[1..], i - 1);
    }
  }

  /** The bytes `readi(ip, shebang, 2, MAX_SHEBANG_LENGTH)` returns: up to
      4096 bytes after the `#!`. */
  function DirectiveBytes(f: File): (b: seq<byte>)
    requires 2 <= |f|
    ensures ReadI(f, 2, MAX_SHEBANG_LENGTH) == Some(b)
    ensures |b| <= MAX_SHEBANG_LENGTH && b == f[2..2 + |b|]
    ensures |b| == MAX_SHEBANG_LENGTH || 2 + |b| == |f|
  {
    ReadI(f, 2, MAX_SHEBANG_LENGTH).value
  }

  /** True when the file starts with the two bytes `#!`. */
  predicate HasDirective(f: File)
  {
    2 <= |f| && f[0] == HASH && f[1] == BANG
  }

  /** The interpreter a directive names: the C string before the first
      space or newline in the bytes read; none there is an error. */
  function Interpreter(f: File): Result<CString>
    requires 2 <= |f|
  {
    var b := DirectiveBytes(f);
    match FirstTerminator(b)
    case None => Err(MalformedInterpreterDirective)
    case Some(i) => Ok(CStrOf(b[..i]))
  }

  /** When the first space or newline after `#!` is at `2 + i`, within the
      bytes read, the interpreter path is the C string before it, and it
      is exactly `f[2..2 + i]` when those bytes hold no NUL. */
  lemma InterpreterIsFirstWord(f: File, i: nat)
    requires 2 + i < |f| && i < MAX_SHEBANG_LENGTH
    requires IsTerminator(f[2 + i])
    requires forall k | 2 <= k < 2 + i :: !IsTerminator(f[k])
    ensures Interpreter(f) == Ok(CStrOf(f[2..2 + i]))
    ensures NoNul(f[2..2 + i]) ==> Interpreter(f).Ok? && Interpreter(f).value == f[2..2 + i]
  {
    var b := DirectiveBytes(f);
    assert b[i] == f[2 + i];
    assert forall k | 0 <= k < i :: b[k] == f[2 + k];
    assert b[..i] == f[2..2 + i];
    if NoNul(f[2..2 + i]) {
      CStrOfNoNul(f[2..2 + i]);
    }
  }

  /** No space or newline among the bytes read: the directive is refused. */
  lemma InterpreterUnterminated(f: File)
    requires 2 <= |f|
    requires forall k | 2 <= k < |f| && k < 2 + MAX_SHEBANG_LENGTH :: !IsTerminator(f[k])
    ensures Interpreter(f) == Err(MalformedInterpreterDirective)
  {
    var b := DirectiveBytes(f);
    assert forall k | 0 <= k < |b| :: b[k] == f[2 + k];
  }

  /** `readi(ip, shebang, 2, MAX_SHEBANG_LENGTH)` into a fresh page:
      copies the bytes after `#!` to the start of `buf`. */
  method ReadDirective(buf: array<byte>, f: File) returns (cnt: nat)
    requires 2 <= |f| && buf.Length == PGSIZE
    modifies buf
    ensures cnt == |DirectiveBytes(f)|
    ensures buf[..cnt] == DirectiveBytes(f)
    ensures buf[cnt..] == old(buf[cnt..])
  {
    var b := DirectiveBytes(f);
    cnt := |b|;
    forall k | 0 <= k < cnt {
      buf[k] := b[k];
    }
    assert buf[..cnt] == b;
  }

  /** The scan of lines 51-58: looks at the first `n` bytes of `buf` for a
      space or newline and overwrites the first one with NUL. */
  method Terminate(buf: array<byte>, n: nat) returns (found: bool, at: nat)
    requires n <= buf.Length
    modifies buf
    ensures found <==> FirstTerminator(old(buf[..n])).Some?
    ensures found ==> FirstTerminator(old(buf[..n])) == Some(at) && at < n
    ensures found ==> buf[..] == old(buf[..])[at := NUL]
    ensures !found ==> buf[..] == old(buf[..])
  {
    ghost var s := buf[..n];
    found, at := false, 0;
    var i := 0;
    while i < n
      invariant 0 <= i <= n
      invariant buf[..] == old(buf[..])
      invariant forall k | 0 <= k < i :: !IsTerminator(s[k])
    {
      if buf[i] == SPACE || buf[i] == NEWLINE {
        assert IsTerminator(s[i]);
        buf[i] := NUL;
        found, at := true, i;
        return;
      }
      i := i + 1;
    }
  }

  /** Lines 68-77, for a directive met by the outermost call: a new page of
      pointers receives the interpreter, the script's path and the old
      arguments after the first; the caller's array is only read. The
      loop starts at `argv[1]` even when `argv[0]` ends the vector, so the
      caller must supply a second null pointer in that case. */
  method FreshVector(argv: array<Slot>, interp: CString, path: CString) returns (nv: array<Slot>)
    requires Terminated(argv[..]) && |Vector(argv[..])| <= MAXARG
    requires 2 <= argv.Length && (argv[0] == Null ==> argv[1] == Null)
    ensures fresh(nv) && nv.Length == ARGV_SLOTS
    ensures Terminated(nv[..]) && Vector(nv[..]) == Rewritten(Vector(argv[..]), interp, path)
  {
    nv := new Slot[ARGV_SLOTS](_ => Null);
    nv[0] := Str(interp);
    nv[1] := Str(path);
    var p := CopyTail(argv, nv);
    nv[p + 1] := Null;
    RewrittenAt(argv[..], nv[..], interp, path, p);
  }

  /** The loop of lines 73-75: copies `argv[1]`, `argv[2]`, ... up to the
      null pointer into `nv[2]`, `nv[3]`, ...; returns the index of the
      last entry written. */
  method CopyTail(argv: array<Slot>, nv: array<Slot>) returns (p: nat)
    requires Terminated(argv[..]) && |Vector(argv[..])| <= MAXARG
    requires nv != argv && nv.Length == ARGV_SLOTS
    requires 2 <= argv.Length && (argv[0] == Null ==> argv[1] == Null)
    modifies nv
    ensures p == (if |Vector(argv[..])| == 0 then 1 else |Vector(argv[..])|)
    ensures nv[0] == old(nv[0]) && nv[1] == old(nv[1])
    ensures forall k | 2 <= k <= p :: nv[k] == argv[k - 1]
  {
    ghost var n := |Vector(argv[..])|;
    p := 1;
    while argv[p] != Null
      invariant 1 <= p <= (if n == 0 then 1 else n)
      invariant nv[0] == old(nv[0]) && nv[1] == old(nv[1])
      invariant forall k | 2 <= k <= p :: nv[k] == argv[k - 1]
      decreases n - p
    {
      nv[p + 1] := argv[p];
      p := p + 1;
    }
  }

  /** Lines 82-90, for a directive met by a nested call: the array is
      shifted right by one in place, walking back from its null pointer
      into the spare slot after it, and the interpreter and the script's
      path overwrite the first two entries. */
  method ShiftVector(argv: array<Slot>, interp: CString, path: CString)
    requires Terminated(argv[..]) && 1 <= |Vector(argv[..])|
    requires |Vector(argv[..])| + 1 < argv.Length
    modifies argv
    ensures Terminated(argv[..])
    ensures Vector(argv[..]) == Rewritten(old(Vector(argv[..])), interp, path)
    ensures forall k | |old(Vector(argv[..]))| + 2 <= k < argv.Length :: argv[k] == old(argv[k])
  {
    ghost var o := argv[..];
    var last := VectorLength(argv);
    argv[last + 1] := Null;
    ShiftUp(argv, last, o);
    argv[0] := Str(interp);
    argv[1] := Str(path);
    RewrittenAt(o, argv[..], interp, path, last);
  }

  /** The loop of line 84: the index of the null pointer that
      ends the vector. */
  method VectorLength(argv: array<Slot>) returns (last: nat)
    requires Terminated(argv[..])
    ensures last == |Vector(argv[..])|
  {
    ghost var n := |Vector(argv[..])|;
    last := 0;
    while argv[last] != Null
      invariant 0 <= last <= n
      decreases n - last
    {
      last := last + 1;
    }
  }

  /** The loop of lines 86-88: moves `argv[1..n]` up by one slot,
      from the top down, so that `argv[2..n+1]` holds what `argv[1..n]`
      held; `argv[0]`, `argv[1]` and `argv[n+1]` onwards are left alone. */
  method ShiftUp(argv: array<Slot>, n: nat, ghost o: seq<Slot>)
    requires 1 <= n && n + 1 < argv.Length == |o|
    requires argv[n + 1] == Null
    requires forall k | 0 <= k <= n :: argv[k] == o[k]
    requires forall k | n + 2 <= k < argv.Length :: argv[k] == o[k]
    modifies argv
    ensures argv[n + 1] == Null && argv[0] == o[0] && argv[1] == o[1]
    ensures forall k | 2 <= k <= n :: argv[k] == o[k - 1]
    ensures forall k | n + 2 <= k < argv.Length :: argv[k] == o[k]
  {
    var last := n;
    while last != 1
      invariant 1 <= last <= n
      invariant argv[n + 1] == Null
      invariant forall k | 0 <= k <= last :: argv[k] == o[k]
      invariant forall k | last < k <= n :: argv[k] == o[k - 1]
      invariant forall k | n + 2 <= k < argv.Length :: argv[k] == o[k]
      decreases last
    {
      argv[last] := argv[last - 1];
      last := last - 1;
    }
  }
}
