/** The two ELF32 records the loader reads from a file: the file header
    (52 bytes) and a program-header entry (32 bytes), both little-endian,
    laid out as in the "ELF Header" and "Program Header" sections of the
    System V ABI for Intel386. */
module Elf {
  import opened Base

  const ELF_MAGIC: u32 := 0x464C457F    // "\x7FELF" read as a little-endian word
  const ELF_PROG_LOAD: u32 := 1
  const ELFHDR_SIZE: int := 52
  const PROGHDR_SIZE: int := 32

  /** 256^n: one more than the largest value `n` bytes can hold. */
  function Pow256(n: nat): (r: nat)
    ensures r >= 1
  {
    if n == 0 then 1 else 0x100 * Pow256(n - 1)
  }

  /** The number the bytes `s` encode, least significant byte first. */
  function LEValue(s: seq<byte>): (r: nat)
    ensures r < Pow256(|s|)
  {
    if s == [] then 0 else s[0] as int + 0x100 * LEValue(s[1..])
  }

  /** The `n` low-order bytes of `x`, least significant first. */
  function LEBytes(x: nat, n: nat): (r: seq<byte>)
    ensures |r| == n
  {
    if n == 0 then [] else [x % 0x100] + LEBytes(x / 0x100, n - 1)
  }

  /** Bytes written for a value that fits read back as that value. */
  lemma {:induction false} LEValueOfBytes(x: nat, n: nat)
    requires x < Pow256(n)
    ensures LEValue(LEBytes(x, n)) == x
  {
    if n > 0 {
      LEValueOfBytes(x / 0x100, n - 1);
      assert LEBytes(x, n)[1..] == LEBytes(x / 0x100, n - 1);
    }
  }

  /** Bytes read as a value are written back as the same bytes. */
  lemma {:induction false} LEBytesOfValue(s: seq<byte>)
    ensures LEBytes(LEValue(s), |s|) == s
  {
    if s != [] {
      LEBytesOfValue(s[1..]);
      var v := LEValue(s);
      assert v % 0x100 == s[0] && v / 0x100 == LEValue(s[1..]);
    }
  }

  /** The little-endian 16-bit value at `b[at..at+2]`. */
  function U16At(b: seq<byte>, at: nat): (r: nat)
    requires at + 2 <= |b|
    ensures r < 0x1_0000
  {
    assert Pow256(2) == 0x1_0000;
    LEValue(b[at..at + 2])
  }

  /** The little-endian 32-bit value at `b[at..at+4]`. */
  function U32At(b: seq<byte>, at: nat): u32
    requires at + 4 <= |b|
  {
    assert Pow256(4) == U32;
    LEValue(b[at..at + 4])
  }

  /** A word depends only on the four bytes it is read from. */
  lemma U32AtEq(m1: seq<byte>, a1: nat, m2: seq<byte>, a2: nat)
    requires a1 + 4 <= |m1| && a2 + 4 <= |m2| && m1[a1..a1 + 4] == m2[a2..a2 + 4]
    ensures U32At(m1, a1) == U32At(m2, a2)
  {
  }

  /** The four little-endian bytes of `x`. */
  function LE32(x: u32): (r: seq<byte>)
    ensures |r| == 4
  {
    LEBytes(x, 4)
  }

  /** Memory holding `LE32(x)` at `at` reads back `x` there. */
  lemma DecodeLE32(b: seq<byte>, at: nat, x: u32)
    requires at + 4 <= |b| && b[at..at + 4] == LE32(x)
    ensures U32At(b, at) == x
  {
    assert Pow256(4) == U32;
    LEValueOfBytes(x, 4);
  }

  /** The word at `at` is written back as the four bytes it was read from. */
  lemma EncodeU32At(b: seq<byte>, at: nat)
    requires at + 4 <= |b|
    ensures LE32(U32At(b, at)) == b[at..at + 4]
  {
    LEBytesOfValue(b[at..at + 4]);
  }

  /** The fields of `struct elfhdr` that the loader uses. */
  datatype ElfHeader = ElfHeader(magic: u32, entry: u32, phoff: u32, phnum: nat)

  /** `struct proghdr`; `kind` is the ELF `p_type`. */
  datatype ProgHeader = ProgHeader(
    kind: u32, off: u32, vaddr: u32, paddr: u32,
    filesz: u32, memsz: u32, flags: u32, align: u32)

  /** Reads `struct elfhdr` from its 52 bytes: `e_ident` at 0 (its first
      word is the magic), `e_entry` at 24, `e_phoff` at 28, `e_phnum` at 44. */
  function DecodeElfHeader(b: seq<byte>): (h: ElfHeader)
    requires |b| == ELFHDR_SIZE
    ensures h.phnum < 0x1_0000
  {
    ElfHeader(U32At(b, 0), U32At(b, 24), U32At(b, 28), U16At(b, 44))
  }

  /** Little-endian words laid out one after another, as a `uint` array
      or record is stored. */
  function WordBytes(ws: seq<u32>): (b: seq<byte>)
    ensures |b| == 4 * |ws|
  {
    if ws == [] then [] else LE32(ws[0]) + WordBytes(ws[1..])
  }

  /** The words stored in `b`, four bytes each; a trailing part of fewer
      than four bytes holds none. */
  function Words(b: seq<byte>): (ws: seq<u32>)
    ensures 4 * |ws| <= |b| < 4 * |ws| + 4
  {
    if |b| < 4 then [] else [U32At(b, 0)] + Words(b[4..])
  }

  /** Words written out are read back unchanged. */
  lemma {:induction false} WordsOfBytes(ws: seq<u32>)
    ensures Words(WordBytes(ws)) == ws
  {
    if ws != [] {
      var b := WordBytes(ws);
      assert b[..4] == LE32(ws[0]) && b[4..] == WordBytes(ws[1..]);
      DecodeLE32(b, 0, ws[0]);
      WordsOfBytes(ws[1..]);
    }
  }

  /** Bytes read as words are written back unchanged. */
  lemma {:induction false} BytesOfWords(b: seq<byte>, n: nat)
    requires |b| == 4 * n
    ensures WordBytes(Words(b)) == b
  {
    if n > 0 {
      EncodeU32At(b, 0);
      BytesOfWords(b[4..], n - 1);
      assert b == b[..4] + b[4..];
    }
  }

  /** Word `i` of `b` is the one at byte offset `4 * i`. */
  lemma {:induction false} WordsAt(b: seq<byte>, i: nat)
    requires 4 * i + 4 <= |b|
    ensures Words(b)[i] == U32At(b, 4 * i)
  {
    if i > 0 {
      WordsAt(b[4..], i - 1);
      assert b[4..][4 * (i - 1)..4 * (i - 1) + 4] == b[4 * i..4 * i + 4];
    }
  }

  /** Word `i` of a word array that was written out is read back at
      byte offset `4 * i`. */
  lemma WordAt(ws: seq<u32>, i: nat)
    requires i < |ws|
    ensures U32At(WordBytes(ws), 4 * i) == ws[i]
  {
    WordsOfBytes(ws);
    WordsAt(WordBytes(ws), i);
  }

  /** Bytes copied to `at` read as the same words, shifted by `at`. */
  lemma SliceWord(mem: seq<byte>, at: nat, wb: seq<byte>, j: nat)
    requires at + |wb| <= |mem| && mem[at..at + |wb|] == wb && j + 4 <= |wb|
    ensures U32At(mem, at + j) == U32At(wb, j)
  {
    assert forall t | j <= t < j + 4 :: mem[at + t] == wb[t];
    U32AtEq(mem, at + j, wb, j);
  }

  /** Reads `struct proghdr` from its 32 bytes, eight words in order. */
  function DecodeProgHeader(b: seq<byte>): ProgHeader
    requires |b| == PROGHDR_SIZE
  {
    var w := Words(b);
    ProgHeader(w[0], w[1], w[2], w[3], w[4], w[5], w[6], w[7])
  }

  /** The eight words of `ph`, in the order of `struct proghdr`. */
  function ProgHeaderWords(ph: ProgHeader): seq<u32>
  {
    [ph.kind, ph.off, ph.vaddr, ph.paddr, ph.filesz, ph.memsz, ph.flags, ph.align]
  }

  /** The 32 bytes a linker writes for `ph`. */
  function EncodeProgHeader(ph: ProgHeader): (b: seq<byte>)
    ensures |b| == PROGHDR_SIZE
  {
    WordBytes(ProgHeaderWords(ph))
  }

  /** Every program header survives being written out and read back. */
  lemma DecodeEncodeProgHeader(ph: ProgHeader)
    ensures DecodeProgHeader(EncodeProgHeader(ph)) == ph
  {
    WordsOfBytes(ProgHeaderWords(ph));
  }

  /** Every 32-byte entry is the encoding of the header it decodes to. */
  lemma EncodeDecodeProgHeader(b: seq<byte>)
    requires |b| == PROGHDR_SIZE
    ensures EncodeProgHeader(DecodeProgHeader(b)) == b
  {
    assert ProgHeaderWords(DecodeProgHeader(b)) == Words(b);
    BytesOfWords(b, 8);
  }

  /** The three conditions a loadable segment must meet: its memory image
      is at least as large as its file image, its end does not wrap past
      2^32, and it starts on a page boundary. */
  predicate SegmentValid(ph: ProgHeader)
  {
    ph.filesz <= ph.memsz && ph.vaddr + ph.memsz < U32 && ph.vaddr % PGSIZE == 0
  }
}
