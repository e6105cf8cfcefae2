/** On-disk layout of FAT and directory sectors (Microsoft FAT specification 1.03,
    sections "FAT Data Structure" and "FAT Directory Structure"). */
module FatCodec {
  import opened Bytes

  type Sector = s: seq<byte> | |s| == 512 witness seq(512, _ => 0)
  type Word = w: nat | w < 0x10000
  type Table = t: seq<Word> | |t| == 256 witness seq(256, _ => 0)

  /** `directory_entry_t`; `size` is 32 bits wide. */
  datatype Entry = Entry(name: seq<byte>, ext: seq<byte>, attr: byte, reserved: seq<byte>,
                         time: Word, date: Word, cluster: Word, size: nat)

  predicate EntryOk(e: Entry) {
    |e.name| == 8 && |e.ext| == 3 && |e.reserved| == 10 && e.size < 0x1_0000_0000
  }

  type Dir = es: seq<Entry> | |es| == 16 && forall i :: 0 <= i < 16 ==> EntryOk(es[i])
    witness seq(16, _ => Entry(seq(8, _ => 0), seq(3, _ => 0), 0, seq(10, _ => 0), 0, 0, 0, 0))

  // ---------------------------------------------------------------- FAT sectors

  function DecodeTable(s: Sector): Table {
    seq(256, i requires 0 <= i < 256 => U16(s[2 * i], s[2 * i + 1]))
  }

  function EncodeTable(t: Table): Sector {
    seq(512, j requires 0 <= j < 512 => if j % 2 == 0 then Lo(t[j / 2]) else Hi(t[j / 2]))
  }

  lemma EncodedWord(t: Table, i: nat)
    requires i < 256
    ensures EncodeTable(t)[2 * i] == Lo(t[i]) && EncodeTable(t)[2 * i + 1] == Hi(t[i])
  {
    hide Lo, Hi;
    assert (2 * i) / 2 == i && (2 * i) % 2 == 0;
    assert (2 * i + 1) / 2 == i && (2 * i + 1) % 2 == 1;
  }

  lemma TableRoundTrip(t: Table)
    ensures DecodeTable(EncodeTable(t)) == t
  {
    hide EncodeTable, Lo, Hi, U16;
    forall i: nat | i < 256 ensures DecodeTable(EncodeTable(t))[i] == t[i] {
      EncodedWord(t, i);
      WordRoundTrip(t[i]);
    }
  }

  lemma TableBytesRoundTrip(s: Sector)
    ensures EncodeTable(DecodeTable(s)) == s
  {
    hide EncodeTable, Lo, Hi, U16;
    var t := DecodeTable(s);
    forall j: nat | j < 512 ensures EncodeTable(t)[j] == s[j] {
      EncodedWord(t, j / 2);
      BytesRoundTrip(s[j / 2 * 2], s[j / 2 * 2 + 1]);
      assert j == 2 * (j / 2) || j == 2 * (j / 2) + 1;
    }
  }

  // ---------------------------------------------------------------- directory sectors

  function DecodeEntry(b: seq<byte>): (e: Entry)
    requires |b| == 32
    ensures EntryOk(e)
  {
    Entry(b[0..8], b[8..11], b[11], b[12..22], U16(b[22], b[23]), U16(b[24], b[25]), U16(b[26], b[27]),
          U16(b[28], b[29]) + 0x10000 * U16(b[30], b[31]))
  }

  /** The fields from `time` on. */
  function Numbers(e: Entry): (b: seq<byte>)
    ensures |b| == 10
  {
    [Lo(e.time), Hi(e.time), Lo(e.date), Hi(e.date), Lo(e.cluster), Hi(e.cluster),
     Lo(e.size), Hi(e.size), Lo(e.size / 0x10000), Hi(e.size / 0x10000)]
  }

  function EncodeEntry(e: Entry): (b: seq<byte>)
    requires EntryOk(e)
    ensures |b| == 32
  {
    e.name + e.ext + [e.attr] + e.reserved + Numbers(e)
  }

  lemma EncodeLayout(e: Entry)
    requires EntryOk(e)
    ensures var b := EncodeEntry(e);
      && b[0..8] == e.name && b[8..11] == e.ext && b[11] == e.attr && b[12..22] == e.reserved
      && b[22..32] == Numbers(e)
  {
    var b := EncodeEntry(e);
    var front := e.name + e.ext + [e.attr] + e.reserved;
    assert b == front + Numbers(e);
    assert front[0..8] == e.name && front[8..11] == e.ext && front[12..22] == e.reserved;
    assert b[0..8] == front[0..8] && b[8..11] == front[8..11] && b[12..22] == front[12..22];
  }

  lemma EntryRoundTrip(e: Entry)
    requires EntryOk(e)
    ensures DecodeEntry(EncodeEntry(e)) == e
  {
    EncodeLayout(e);
    var b, n := EncodeEntry(e), Numbers(e);
    assert forall i :: 0 <= i < 10 ==> b[22 + i] == b[22..32][i] == n[i];
    assert b[22] == n[0] && b[23] == n[1] && b[24] == n[2] && b[25] == n[3] && b[26] == n[4]
      && b[27] == n[5] && b[28] == n[6] && b[29] == n[7] && b[30] == n[8] && b[31] == n[9] by {
      forall i | 22 <= i < 32 ensures b[i] == n[i - 22] { assert b[i] == b[22..32][i - 22]; }
    }
    WordRoundTrip(e.time);
    WordRoundTrip(e.date);
    WordRoundTrip(e.cluster);
    SizeRoundTrip(e.size);
  }

  lemma SizeRoundTrip(size: nat)
    requires size < 0x1_0000_0000
    ensures U16(Lo(size), Hi(size)) + 0x10000 * U16(Lo(size / 0x10000), Hi(size / 0x10000)) == size
  {
    var hi, mid, lo := size / 0x10000, size / 256 % 256, size % 256;
    assert size / 256 / 256 == hi;
    assert size / 256 == 256 * hi + mid;
    assert size == 256 * (256 * hi + mid) + lo;
    WordRoundTrip(hi);
  }

  function DecodeDir(s: Sector): Dir {
    seq(16, i requires 0 <= i < 16 => DecodeEntry(s[32 * i..32 * i + 32]))
  }

  function EncodeDir(es: Dir): Sector {
    seq(512, j requires 0 <= j < 512 => EncodeEntry(es[j / 32])[j % 32])
  }

  /** Reading a directory sector into `directory_entry_t dir[16]` and writing it back
      are inverse to one another. */
  lemma DirRoundTrip(es: Dir)
    ensures DecodeDir(EncodeDir(es)) == es
  {
    var s := EncodeDir(es);
    forall i | 0 <= i < 16 ensures DecodeDir(s)[i] == es[i] {
      SlotBytes(es, i);
      EntryRoundTrip(es[i]);
    }
  }

  lemma SlotBytes(es: Dir, i: nat)
    requires i < 16
    ensures EncodeDir(es)[32 * i..32 * i + 32] == EncodeEntry(es[i])
  {
    hide EncodeEntry;
    var s := EncodeDir(es);
    forall m | 0 <= m < 32 ensures s[32 * i + m] == EncodeEntry(es[i])[m] {
      assert (32 * i + m) / 32 == i && (32 * i + m) % 32 == m;
    }
  }
}
