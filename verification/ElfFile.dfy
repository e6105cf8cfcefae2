/** Executables byte by byte: the file header and the program headers as the System V gABI
    lays them out (chapter 4, "ELF Header", and chapter 5, "Program Header"), and what a
    program loaded from such a file reads. */
module ElfFile {
  import opened PagingSpec
  import opened ElfSpec
  import opened ElfProofs
  import opened Elf

  type half = x: nat | x < 0x10000
  type word = x: nat | x < 0x1_0000_0000

  /** ELFDATA2LSB: least significant byte first. */
  function Half(x: half): (b: seq<nat>)
    ensures |b| == 2
  {
    [x % 0x100, x / 0x100]
  }

  function Word(x: word): (b: seq<nat>)
    ensures |b| == 4
  {
    Half(x % 0x10000) + Half(x / 0x10000)
  }

  /** `Elf32_Phdr`, field by field. */
  datatype ProgramHeader = ProgramHeader(kind: word, offset: word, vaddr: word, paddr: word, filesz: word, memsz: word,
                                         flags: word, align: word)

  function HeaderBytes(h: ProgramHeader): (b: seq<nat>)
    ensures |b| == 32
  {
    Word(h.kind) + Word(h.offset) + Word(h.vaddr) + Word(h.paddr)
    + Word(h.filesz) + Word(h.memsz) + Word(h.flags) + Word(h.align)
  }

  function TableBytes(hs: seq<ProgramHeader>): (b: seq<nat>)
    ensures |b| == 32 * |hs|
  {
    if hs == [] then [] else HeaderBytes(hs[0]) + TableBytes(hs[1..])
  }

  /** 0x7F "ELF", 32 bits, little-endian, version 1, padding. */
  const IDENT: seq<nat> := [0x7F, 0x45, 0x4C, 0x46, 1, 1, 1, 0, 0, 0, 0, 0, 0, 0, 0, 0]

  /** `Elf32_Ehdr`: type, machine, version, entry, the offsets of the two tables, flags,
      the header size, entry size and number of program headers, and the same of section
      headers with the index of their names. */
  function FileHeader(entry: word, phoff: word, shoff: word, flags: word, phnum: half, shnum: half, shstrndx: half):
      (b: seq<nat>)
    ensures |b| == 52
  {
    IDENT + Half(2) + Half(3) + Word(1) + Word(entry) + Word(phoff) + Word(shoff) + Word(flags)
    + Half(52) + Half(32) + Half(phnum) + Half(40) + Half(shnum) + Half(shstrndx)
  }

  /** What the loader looks at. */
  function Seen(hs: seq<ProgramHeader>): (phs: seq<Phdr>)
    ensures |phs| == |hs|
  {
    seq(|hs|, i requires 0 <= i < |hs| => Phdr(hs[i].kind, hs[i].offset, hs[i].vaddr, hs[i].filesz, hs[i].memsz))
  }

  lemma HalfAt(pre: seq<nat>, x: half, post: seq<nat>)
    ensures U16(pre + Half(x) + post, |pre|) == x
  {
    var d := pre + Half(x) + post;
    assert d[|pre|] == x % 0x100 && d[|pre| + 1] == x / 0x100;
  }

  lemma WordAt(pre: seq<nat>, x: word, post: seq<nat>)
    ensures U32(pre + Word(x) + post, |pre|) == x
  {
    HalfAt(pre, x % 0x10000, Half(x / 0x10000) + post);
    HalfAt(pre + Half(x % 0x10000), x / 0x10000, post);
    assert pre + Word(x) + post == pre + Half(x % 0x10000) + (Half(x / 0x10000) + post);
    assert pre + Word(x) + post == (pre + Half(x % 0x10000)) + Half(x / 0x10000) + post;
  }

  /** Bytes of a part of the file are those of the file at its place. */
  lemma PartAt(pre: seq<nat>, part: seq<nat>, post: seq<nat>, o: nat)
    ensures o + 2 <= |part| ==> U16(pre + part + post, |pre| + o) == U16(part, o)
    ensures o + 4 <= |part| ==> U32(pre + part + post, |pre| + o) == U32(part, o)
  {
    var d := pre + part + post;
    assert forall k :: 0 <= k < |part| ==> d[|pre| + k] == part[k];
  }

  lemma WordValue(x: word)
    ensures U32(Word(x), 0) == x
  {
    WordAt([], x, []);
    assert [] + Word(x) + [] == Word(x);
  }

  /** Eight words in a row, read one by one. */
  lemma EightWords(a: seq<nat>, b: seq<nat>, c: seq<nat>, d: seq<nat>, e: seq<nat>, f: seq<nat>, g: seq<nat>,
                   h: seq<nat>)
    requires |a| == |b| == |c| == |d| == |e| == |f| == |g| == |h| == 4
    ensures var s := a + b + c + d + e + f + g + h;
      && |s| == 32 && U32(s, 0) == U32(a, 0) && U32(s, 4) == U32(b, 0) && U32(s, 8) == U32(c, 0)
      && U32(s, 16) == U32(e, 0) && U32(s, 20) == U32(f, 0)
  {
  }

  lemma HeaderFields(h: ProgramHeader)
    ensures var b := HeaderBytes(h);
      && U32(b, 0) == h.kind && U32(b, 4) == h.offset && U32(b, 8) == h.vaddr
      && U32(b, 16) == h.filesz && U32(b, 20) == h.memsz
  {
    hide Word, U32;
    WordValue(h.kind);
    WordValue(h.offset);
    WordValue(h.vaddr);
    WordValue(h.filesz);
    WordValue(h.memsz);
    EightWords(Word(h.kind), Word(h.offset), Word(h.vaddr), Word(h.paddr), Word(h.filesz), Word(h.memsz),
               Word(h.flags), Word(h.align));
  }

  /** The `i`-th entry of the table. */
  lemma {:induction false} TableAt(hs: seq<ProgramHeader>, i: nat)
    requires i < |hs|
    ensures TableBytes(hs)[32 * i..32 * i + 32] == HeaderBytes(hs[i])
    decreases i
  {
    hide HeaderBytes;
    var t := TableBytes(hs[1..]);
    if i == 0 {
      assert TableBytes(hs)[0..32] == HeaderBytes(hs[0]);
    } else {
      TableAt(hs[1..], i - 1);
      assert TableBytes(hs)[32 * i..32 * i + 32] == t[32 * (i - 1)..32 * (i - 1) + 32];
    }
  }

  lemma FileFields(entry: word, phoff: word, shoff: word, flags: word, phnum: half, shnum: half, shstrndx: half)
    ensures var b := FileHeader(entry, phoff, shoff, flags, phnum, shnum, shstrndx);
      && b[0] == 0x7F && U32(b, 24) == entry && U32(b, 28) == phoff && U16(b, 44) == phnum
  {
    hide Word, Half, U32, U16;
    var a := IDENT + Half(2) + Half(3) + Word(1);
    var c := Word(shoff) + Word(flags) + Half(52) + Half(32);
    var z := Half(40) + Half(shnum) + Half(shstrndx);
    var b := FileHeader(entry, phoff, shoff, flags, phnum, shnum, shstrndx);
    WordAt(a, entry, Word(phoff) + c + Half(phnum) + z);
    assert b == a + Word(entry) + (Word(phoff) + c + Half(phnum) + z);
    WordAt(a + Word(entry), phoff, c + Half(phnum) + z);
    assert b == (a + Word(entry)) + Word(phoff) + (c + Half(phnum) + z);
    HalfAt(a + Word(entry) + Word(phoff) + c, phnum, z);
    assert b == (a + Word(entry) + Word(phoff) + c) + Half(phnum) + z;
  }

  /** An executable: header, anything, the program headers, anything. */
  datatype Executable = Executable(entry: word, shoff: word, flags: word, shnum: half, shstrndx: half,
                                   gap: seq<nat>, headers: seq<ProgramHeader>, rest: seq<nat>)

  predicate Small(x: Executable) { 52 + |x.gap| < 0x1_0000_0000 && |x.headers| < 0x10000 }

  function FileOf(x: Executable): seq<nat>
    requires Small(x)
  {
    FileHeader(x.entry, 52 + |x.gap|, x.shoff, x.flags, |x.headers|, x.shnum, x.shstrndx)
    + x.gap + TableBytes(x.headers) + x.rest
  }

  /** The loader reads from the file what its headers say. */
  lemma LoaderReadsHeaders(x: Executable)
    requires Small(x)
    ensures var data := FileOf(x);
      HasHeaders(data) && data[0] == 0x7F && U32(data, 24) == x.entry && Headers(data) == Seen(x.headers)
  {
    hide FileHeader, TableBytes, HeaderBytes, U32, U16;
    var data := FileOf(x);
    var head, table := FileHeader(x.entry, 52 + |x.gap|, x.shoff, x.flags, |x.headers|, x.shnum, x.shstrndx),
        TableBytes(x.headers);
    FileFields(x.entry, 52 + |x.gap|, x.shoff, x.flags, |x.headers|, x.shnum, x.shstrndx);
    assert data == [] + head + (x.gap + table + x.rest);
    PartAt([], head, x.gap + table + x.rest, 24);
    PartAt([], head, x.gap + table + x.rest, 28);
    PartAt([], head, x.gap + table + x.rest, 44);
    forall i: nat | i < |x.headers| ensures HeaderAt(data, i) == Seen(x.headers)[i] {
      EntryAt(x, i);
    }
  }

  /** Field at `o` of the `i`-th program header. */
  lemma EntryField(head: seq<nat>, table: seq<nat>, rest: seq<nat>, i: nat, o: nat)
    requires 32 * i + 32 <= |table| && o + 4 <= 32
    ensures U32(head + table + rest, |head| + 32 * i + o) == U32(table[32 * i..32 * i + 32], o)
  {
    var d, e := head + table + rest, table[32 * i..32 * i + 32];
    assert forall k :: 0 <= k < 32 ==> d[|head| + 32 * i + k] == e[k];
  }

  lemma EntryAt(x: Executable, i: nat)
    requires Small(x) && i < |x.headers|
    requires var data := FileOf(x); HasHeaders(data) && U32(data, 28) == 52 + |x.gap| && U16(data, 44) == |x.headers|
    ensures HeaderAt(FileOf(x), i) == Seen(x.headers)[i]
  {
    hide FileHeader, TableBytes, HeaderBytes, U32, U16;
    var head, table := FileHeader(x.entry, 52 + |x.gap|, x.shoff, x.flags, |x.headers|, x.shnum, x.shstrndx) + x.gap,
        TableBytes(x.headers);
    var data := FileOf(x);
    TableAt(x.headers, i);
    HeaderFields(x.headers[i]);
    EntryField(head, table, x.rest, i, 0);
    EntryField(head, table, x.rest, i, 4);
    EntryField(head, table, x.rest, i, 8);
    EntryField(head, table, x.rest, i, 16);
    EntryField(head, table, x.rest, i, 20);
    assert |head| == 52 + |x.gap|;
  }

  /** What `load_elf_segments` makes of the bytes of such a file: a segment whose pages
      and places no later one touches reads byte for byte as the file, then as zeros. */
  lemma FileReadsBack(m: Machine, x: Executable, pd: nat, base: nat, k: nat, j: nat)
    requires Small(x) && HasHeaders(FileOf(x)) && Loadable(m, FileOf(x), pd, base, Headers(FileOf(x)))
    requires k < |x.headers| && x.headers[k].kind == 1 && j < x.headers[k].memsz
    requires KeepsPages(Seen(x.headers), k) && KeepsBytes(Seen(x.headers), k)
    ensures var r, h := LoadAll(m, FileOf(x), pd, base, Headers(FileOf(x))), x.headers[k];
      && Shaped(r.sp)
      && (j < h.filesz ==> h.offset + j < |FileOf(x)| && Reads(r, pd, h.vaddr + j, FileOf(x)[h.offset + j]))
      && (j >= h.filesz ==> Reads(r, pd, h.vaddr + j, 0))
  {
    hide FileOf, LoadAll, Reads, Inv, KeepsPages, KeepsBytes, Private, Headers;
    LoaderReadsHeaders(x);
    var data, phs := FileOf(x), Seen(x.headers);
    assert phs[k] in phs;
    DisjointSegmentsRight(m, data, pd, base, phs, k);
    assert ElfSpec.Fits(m.sp, data, phs[k]);
    var r := LoadAll(m, data, pd, base, phs);
    assert Reads(r, pd, phs[k].vaddr + j, FileByte(data, phs[k], j));
  }
}
