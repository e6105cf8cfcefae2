/** Paths of several names: what `fat16_find_entry` makes of the text, against a descent
    name by name. */
module FatWalk {
  import opened Bytes
  import opened FatCodec
  import opened FatVolume
  import opened FatDisk
  import opened FatFiles
  import opened FatRead
  import opened PathSpec

  /** One padded 8.3 name of a path. */
  datatype Part = Part(name: seq<byte>, ext: seq<byte>)

  predicate PartsOk(parts: seq<Part>) {
    parts != [] && forall i :: 0 <= i < |parts| ==> Canonical(parts[i].name, parts[i].ext)
  }

  /** The names one after another, each in a directory that the one before it names. */
  function Descend(d: Disk, g: Geo, parts: seq<Part>, lba: nat, n: nat): Found
    requires parts != []
    decreases |parts|
  {
    var f := Lookup(DirsAt(d, lba, n), parts[0].name, parts[0].ext);
    if |parts| == 1 || f.Missing? then f
    else if f.e.attr / 16 % 2 == 0 then Missing
    else Descend(d, g, parts[1..], g.ClusterLba(f.e.cluster), g.spc)
  }

  /** The names with a separator between each two: "/" or "\". */
  function Spelled(parts: seq<Part>, separator: byte): (path: seq<byte>)
    requires parts != []
    decreases |parts|
  {
    var first := ListName(parts[0].name, parts[0].ext);
    if |parts| == 1 then first else first + [separator] + Spelled(parts[1..], separator)
  }

  lemma SpelledSomething(parts: seq<Part>, separator: byte)
    requires PartsOk(parts) && (separator == 47 || separator == 92)
    ensures Spelled(parts, separator) != [] && !IsSlash(Spelled(parts, separator)[0])
  {
    StartsPlain(parts[0].name, parts[0].ext);
  }

  lemma StartsPlain(name: seq<byte>, ext: seq<byte>)
    requires Canonical(name, ext)
    ensures ListName(name, ext) != [] && !IsSlash(ListName(name, ext)[0])
  {
  }

  /** The path walk finds what the descent finds, with or without a separator in front. */
  lemma {:induction false} WalkIsDescent(d: Disk, g: Geo, parts: seq<Part>, separator: byte, lba: nat, n: nat,
                                         out: Entry)
    requires PartsOk(parts) && (separator == 47 || separator == 92)
    ensures FindEntry(d, g, Spelled(parts, separator), lba, n, out) == Descend(d, g, parts, lba, n)
    ensures FindEntry(d, g, [separator] + Spelled(parts, separator), lba, n, out) == Descend(d, g, parts, lba, n)
    decreases |parts|
  {
    hide Lookup, DirsAt, Geo.ClusterLba, Canonical, ParseNode, ListName;
    var name, ext, path := parts[0].name, parts[0].ext, Spelled(parts, separator);
    SpelledSomething(parts, separator);
    LeadingSlash(path, separator);
    if |parts| == 1 {
      BuildOfCanonical(name, ext);
    } else {
      SpelledSomething(parts[1..], separator);
      ParseFirst(name, ext, separator, Spelled(parts[1..], separator));
      var f := Lookup(DirsAt(d, lba, n), name, ext);
      if f.Found? {
        WalkIsDescent(d, g, parts[1..], separator, g.ClusterLba(f.e.cluster), g.spc, f.e);
      }
    }
  }

  /** One separator in front of a path changes nothing. */
  lemma LeadingSlash(path: seq<byte>, separator: byte)
    requires path != [] && !IsSlash(path[0]) && (separator == 47 || separator == 92)
    ensures ParseNode([separator] + path) == ParseNode(path)
  {
    assert ([separator] + path)[1..] == path;
  }
}
