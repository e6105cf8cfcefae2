/** 8.3 names as src/disk.c prints and parses them. A C string is the sequence of its
    bytes before the terminating zero. */
module PathSpec {
  import opened Bytes

  const SPACE: byte := 32
  const DOT: byte := 46
  const SLASH: byte := 47
  const BACKSLASH: byte := 92

  predicate IsSlash(c: byte) { c == SLASH || c == BACKSLASH }
  predicate IsLower(c: byte) { 97 <= c <= 122 }
  function Upper(c: byte): byte { if IsLower(c) then c - 32 else c }

  /** No zero byte inside. */
  predicate CString(s: seq<byte>) { forall i :: 0 <= i < |s| ==> s[i] != 0 }

  // ---------------------------------------------------------------- parsing

  /** Length of the leading part without slash, and without dot if `dots` stop it. */
  function PartLength(p: seq<byte>, dots: bool): (n: nat)
    ensures n <= |p|
    ensures forall i :: 0 <= i < n ==> !IsSlash(p[i]) && (dots ==> p[i] != DOT)
    ensures n < |p| ==> IsSlash(p[n]) || (dots && p[n] == DOT)
  {
    if p == [] || IsSlash(p[0]) || (dots && p[0] == DOT) then 0 else 1 + PartLength(p[1..], dots)
  }

  /** The first `width` bytes in upper case, padded with spaces. */
  function Field(part: seq<byte>, width: nat): (f: seq<byte>)
    ensures |f| == width
    ensures forall i :: 0 <= i < width ==> f[i] == if i < |part| then Upper(part[i]) else SPACE
  {
    seq(width, i requires 0 <= i < width => if i < |part| then Upper(part[i]) else SPACE)
  }

  datatype Node = NoNode | Node(name: seq<byte>, ext: seq<byte>, rest: seq<byte>)

  function DropSlash(p: seq<byte>): seq<byte> { if p != [] && IsSlash(p[0]) then p[1..] else p }

  /** `parse_path_node`: the next 8.3 name of a path and what is left of the path.
      Whenever a node is returned the path gets shorter, so the path walk ends. */
  function ParseNode(path: seq<byte>): (r: Node)
    ensures r.Node? ==> |r.name| == 8 && |r.ext| == 3 && |r.rest| < |path|
    ensures r.NoNode? <==> path == [] || (|path| == 1 && IsSlash(path[0]))
  {
    var p := DropSlash(path);
    if p == [] then NoNode else
    var n := PartLength(p, true);
    var name, tail := Field(p[..n], 8), p[n..];
    if tail != [] && tail[0] == DOT then
      var q := tail[1..];
      var m := PartLength(q, false);
      Node(name, Field(q[..m], 3), DropSlash(q[m..]))
    else
      Node(name, Field([], 3), DropSlash(tail))
  }

  // ---------------------------------------------------------------- printing

  /** The part of a field before its first space. */
  function Trim(f: seq<byte>): (t: seq<byte>)
    ensures |t| <= |f| && t == f[..|t|]
    ensures SPACE !in t && (|t| < |f| ==> f[|t|] == SPACE)
  {
    if f == [] || f[0] == SPACE then [] else [f[0]] + Trim(f[1..])
  }

  /** The path `ardaos_read_file` and `vfs_open` build from a name and an extension. */
  function BuildPath(name: seq<byte>, ext: seq<byte>): seq<byte> {
    var stem := Trim(if |name| <= 60 then name else name[..60]);
    if DOT !in stem && ext != [] && ext[0] != SPACE
    then stem + [DOT] + Trim(if |ext| <= 3 then ext else ext[..3]) else stem
  }

  /** The name `vfs_list_dir` prints for a file. */
  function ListName(name: seq<byte>, ext: seq<byte>): seq<byte> {
    if Trim(ext) == [] then Trim(name) else Trim(name) + [DOT] + Trim(ext)
  }

  /** A padded field whose bytes the parser can produce. */
  predicate Plain(f: seq<byte>, dots: bool) {
    && (forall i :: 0 <= i < |f| ==> !IsSlash(f[i]) && !IsLower(f[i]) && (dots ==> f[i] != DOT))
    && (forall i :: |Trim(f)| <= i < |f| ==> f[i] == SPACE)
  }

  /** A valid padded 8.3 name: upper case, spaces only at the end, not all blank. */
  predicate Canonical(name: seq<byte>, ext: seq<byte>) {
    && |name| == 8 && |ext| == 3 && CString(name) && CString(ext)
    && Plain(name, true) && Plain(ext, false)
    && (Trim(name) != [] || Trim(ext) != [])
  }

  lemma CanonicalText(name: seq<byte>, ext: seq<byte>)
    requires Canonical(name, ext)
    ensures 0 !in name && 0 !in ext
  {
  }

  // ---------------------------------------------------------------- printing and parsing

  lemma {:induction false} PartLengthIs(p: seq<byte>, n: nat, dots: bool)
    requires n <= |p| && forall i :: 0 <= i < n ==> !IsSlash(p[i]) && (dots ==> p[i] != DOT)
    requires n < |p| ==> IsSlash(p[n]) || (dots && p[n] == DOT)
    ensures PartLength(p, dots) == n
  {
    var k := PartLength(p, dots);
    assert k >= n;
    assert n >= k;
  }

  /** A plain field is what parsing its trimmed text gives back. */
  lemma FieldOfTrim(f: seq<byte>, dots: bool)
    requires Plain(f, dots)
    ensures Field(Trim(f), |f|) == f
  {
    var t := Trim(f);
    forall i | 0 <= i < |f| ensures Field(t, |f|)[i] == f[i] {
      if i < |t| { assert t[i] == f[i]; }
    }
  }

  /** What parsing produces is always plain. */
  lemma FieldIsPlain(part: seq<byte>, width: nat, dots: bool)
    requires SPACE !in part && forall i :: 0 <= i < |part| ==> !IsSlash(part[i]) && (dots ==> part[i] != DOT)
    ensures Plain(Field(part, width), dots)
  {
    var f := Field(part, width);
    TrimOfField(part, width);
  }

  lemma {:induction false} TrimIs(f: seq<byte>, n: nat)
    requires n <= |f| && SPACE !in f[..n] && (n < |f| ==> f[n] == SPACE)
    ensures Trim(f) == f[..n]
  {
    var t := Trim(f);
    assert forall i :: 0 <= i < n ==> f[i] in f[..n];
    assert |t| >= n;
    assert forall i :: 0 <= i < |t| ==> f[i] in t;
  }

  lemma TrimOfField(part: seq<byte>, width: nat)
    requires SPACE !in part
    ensures |Trim(Field(part, width))| == if |part| < width then |part| else width
  {
    var n := if |part| < width then |part| else width;
    var f := Field(part, width);
    forall i | 0 <= i < n ensures f[i] != SPACE { assert part[i] in part; }
    TrimIs(f, n);
  }

  lemma ParseStem(stem: seq<byte>)
    requires stem != [] && forall i :: 0 <= i < |stem| ==> !IsSlash(stem[i]) && stem[i] != DOT
    ensures ParseNode(stem) == Node(Field(stem, 8), Field([], 3), [])
  {
    hide Field, PartLength;
    PartLengthIs(stem, |stem|, true);
    assert stem[..|stem|] == stem;
  }

  lemma ParseDotted(stem: seq<byte>, tail: seq<byte>)
    requires forall i :: 0 <= i < |stem| ==> !IsSlash(stem[i]) && stem[i] != DOT
    requires forall i :: 0 <= i < |tail| ==> !IsSlash(tail[i])
    ensures ParseNode(stem + [DOT] + tail) == Node(Field(stem, 8), Field(tail, 3), [])
  {
    hide Field, PartLength;
    var p := stem + [DOT] + tail;
    assert p[|stem|] == DOT && forall i :: 0 <= i < |stem| ==> p[i] == stem[i];
    PartLengthIs(p, |stem|, true);
    assert p[..|stem|] == stem && p[|stem|..][1..] == tail;
    PartLengthIs(tail, |tail|, false);
    assert tail[..|tail|] == tail;
  }

  /** Building a path from a padded name and extension and parsing it gives the same
      eleven bytes exactly when they form a valid 8.3 name. */
  lemma BuildThenParseIff(name: seq<byte>, ext: seq<byte>)
    requires |name| == 8 && |ext| == 3 && CString(name) && CString(ext)
    ensures ParseNode(BuildPath(name, ext)) == Node(name, ext, []) <==> Canonical(name, ext)
  {
    if Canonical(name, ext) {
      BuildOfCanonical(name, ext);
    } else if ParseNode(BuildPath(name, ext)) == Node(name, ext, []) {
      ParsedIsCanonical(name, ext);
    }
  }

  lemma BuildOfCanonical(name: seq<byte>, ext: seq<byte>)
    requires Canonical(name, ext)
    ensures BuildPath(name, ext) == ListName(name, ext)
    ensures ParseNode(BuildPath(name, ext)) == Node(name, ext, [])
  {
    var stem, tail := Trim(name), Trim(ext);
    assert forall i :: 0 <= i < |stem| ==> stem[i] == name[i];
    assert forall i :: 0 <= i < |tail| ==> tail[i] == ext[i];
    assert DOT !in stem;
    assert tail == [] <==> ext[0] == SPACE;
    FieldOfTrim(name, true);
    FieldOfTrim(ext, false);
    if tail == [] { ParseStem(stem); } else { ParseDotted(stem, tail); }
  }

  lemma ParsedIsCanonical(name: seq<byte>, ext: seq<byte>)
    requires |name| == 8 && |ext| == 3 && CString(name) && CString(ext)
    requires ParseNode(BuildPath(name, ext)) == Node(name, ext, [])
    ensures Canonical(name, ext)
  {
    BuildHasNoSpace(name, ext);
    ParsedIsPlain(BuildPath(name, ext));
    if Trim(name) == [] && Trim(ext) == [] {
      BlankBuildsNothing(name, ext);
    }
  }

  lemma BlankBuildsNothing(name: seq<byte>, ext: seq<byte>)
    requires |name| == 8 && |ext| == 3 && Trim(name) == [] && Trim(ext) == []
    ensures ParseNode(BuildPath(name, ext)) == NoNode
  {
    assert BuildPath(name, ext) == [];
  }

  /** Names parsed from a C string hold no zero byte. */
  lemma ParsedIsText(path: seq<byte>)
    requires CString(path) && ParseNode(path).Node?
    ensures CString(ParseNode(path).name) && CString(ParseNode(path).ext)
  {
    var p := DropSlash(path);
    assert CString(p) && CString(p[PartLength(p, true)..]);
  }

  /** A parsed node of a path without spaces is made of plain fields. */
  lemma ParsedIsPlain(path: seq<byte>)
    requires SPACE !in path && ParseNode(path).Node?
    ensures Plain(ParseNode(path).name, true) && Plain(ParseNode(path).ext, false)
  {
    hide Plain, Trim;
    var p := DropSlash(path);
    assert SPACE !in p;
    var n := PartLength(p, true);
    FieldIsPlain(p[..n], 8, true);
    if p[n..] != [] && p[n] == DOT {
      var q := p[n..][1..];
      FieldIsPlain(q[..PartLength(q, false)], 3, false);
    } else {
      FieldIsPlain([], 3, false);
    }
  }

  lemma BuildHasNoSpace(name: seq<byte>, ext: seq<byte>)
    ensures SPACE !in BuildPath(name, ext)
  {
  }

  lemma StemThen(stem: seq<byte>, separator: byte, rest: seq<byte>)
    requires stem != [] && (forall i :: 0 <= i < |stem| ==> !IsSlash(stem[i]) && stem[i] != DOT) && IsSlash(separator)
    ensures ParseNode(stem + [separator] + rest) == Node(Field(stem, 8), Field([], 3), rest)
  {
    hide Field, PartLength;
    var p := stem + [separator] + rest;
    assert p[|stem|] == separator && forall i :: 0 <= i < |stem| ==> p[i] == stem[i];
    PartLengthIs(p, |stem|, true);
    assert p[..|stem|] == stem && p[|stem|..] == [separator] + rest && p[|stem|..][1..] == rest;
  }

  /** A dot at `a` and a separator at `b`. */
  lemma ParseAtDot(p: seq<byte>, a: nat, b: nat)
    requires a < b < |p| && p[a] == DOT && IsSlash(p[b])
    requires forall i :: 0 <= i < a ==> !IsSlash(p[i]) && p[i] != DOT
    requires forall i :: a < i < b ==> !IsSlash(p[i])
    ensures ParseNode(p) == Node(Field(p[..a], 8), Field(p[a + 1..b], 3), p[b + 1..])
  {
    hide PartLength, Field;
    PartLengthIs(p, a, true);
    var q := p[a..][1..];
    assert q == p[a + 1..];
    PartLengthIs(q, b - a - 1, false);
    assert q[..b - a - 1] == p[a + 1..b] && q[b - a - 1..][1..] == p[b + 1..];
  }

  lemma Joined(stem: seq<byte>, tail: seq<byte>, separator: byte, rest: seq<byte>)
    ensures var p, a, b := stem + [DOT] + tail + [separator] + rest, |stem|, |stem| + 1 + |tail|;
      && b < |p| && p[a] == DOT && p[b] == separator && p[..a] == stem && p[a + 1..b] == tail && p[b + 1..] == rest
      && (forall i :: 0 <= i < a ==> p[i] == stem[i]) && (forall i :: a < i < b ==> p[i] == tail[i - a - 1])
  {
  }

  lemma DottedThen(stem: seq<byte>, tail: seq<byte>, separator: byte, rest: seq<byte>)
    requires forall i :: 0 <= i < |stem| ==> !IsSlash(stem[i]) && stem[i] != DOT
    requires (forall i :: 0 <= i < |tail| ==> !IsSlash(tail[i])) && IsSlash(separator)
    ensures ParseNode(stem + [DOT] + tail + [separator] + rest) == Node(Field(stem, 8), Field(tail, 3), rest)
  {
    hide Field, ParseNode;
    Joined(stem, tail, separator, rest);
    ParseAtDot(stem + [DOT] + tail + [separator] + rest, |stem|, |stem| + 1 + |tail|);
  }

  /** A name in front of a separator is parsed off. */
  lemma ParseFirst(name: seq<byte>, ext: seq<byte>, separator: byte, rest: seq<byte>)
    requires Canonical(name, ext) && (separator == 47 || separator == 92)
    ensures ParseNode(ListName(name, ext) + [separator] + rest) == Node(name, ext, rest)
  {
    hide ParseNode, Field;
    var stem, tail := Trim(name), Trim(ext);
    FieldOfTrim(name, true);
    FieldOfTrim(ext, false);
    assert forall i :: 0 <= i < |stem| ==> stem[i] == name[i];
    assert forall i :: 0 <= i < |tail| ==> tail[i] == ext[i];
    if tail == [] { StemThen(stem, separator, rest); } else { DottedThen(stem, tail, separator, rest); }
  }

  // ---------------------------------------------------------------- case and missing extensions

  /** A to Z in lower case. */
  function Lowered(p: seq<byte>): (r: seq<byte>)
    ensures |r| == |p|
    ensures forall i :: 0 <= i < |p| ==> r[i] == if 65 <= p[i] <= 90 then p[i] + 32 else p[i]
  {
    seq<byte>(|p|, i requires 0 <= i < |p| => if 65 <= p[i] <= 90 then p[i] + 32 else p[i])
  }

  lemma LoweredPart(p: seq<byte>, dots: bool)
    ensures PartLength(Lowered(p), dots) == PartLength(p, dots)
  {
    PartLengthIs(Lowered(p), PartLength(p, dots), dots);
  }

  lemma LoweredField(part: seq<byte>, width: nat)
    ensures Field(Lowered(part), width) == Field(part, width)
  {
  }

  lemma LoweredCut(p: seq<byte>, n: nat)
    requires n <= |p|
    ensures Lowered(p)[..n] == Lowered(p[..n]) && Lowered(p)[n..] == Lowered(p[n..])
  {
  }

  lemma LoweredDrop(p: seq<byte>)
    ensures DropSlash(Lowered(p)) == Lowered(DropSlash(p))
  {
    if p != [] { LoweredCut(p, 1); }
  }

  /** Parsing does not tell capital letters from small ones. */
  lemma CaseIgnored(path: seq<byte>)
    ensures match ParseNode(path)
      case NoNode => ParseNode(Lowered(path)) == NoNode
      case Node(name, ext, rest) => ParseNode(Lowered(path)) == Node(name, ext, Lowered(rest))
  {
    hide PartLength, Field, Lowered;
    LoweredDrop(path);
    var p := DropSlash(path);
    if p != [] {
      var n := PartLength(p, true);
      LoweredPart(p, true);
      LoweredCut(p, n);
      LoweredField(p[..n], 8);
      var tail := p[n..];
      LoweredDrop(tail);
      if tail != [] && tail[0] == DOT {
        LoweredCut(tail, 1);
        var q := tail[1..];
        var m := PartLength(q, false);
        LoweredPart(q, false);
        LoweredCut(q, m);
        LoweredField(q[..m], 3);
        LoweredDrop(q[m..]);
      }
    }
  }

  /** A file name as a caller passes it: one name without slash or space. */
  predicate Bare(text: seq<byte>) {
    |text| <= 60 && SPACE !in text && forall i :: 0 <= i < |text| ==> !IsSlash(text[i])
  }

  lemma BuildBare(text: seq<byte>, ext: seq<byte>)
    requires Bare(text)
    ensures BuildPath(text, ext) == if DOT in text || ext == [] || ext[0] == SPACE then text
      else text + [DOT] + Trim(if |ext| <= 3 then ext else ext[..3])
  {
    hide Trim;
    TrimIs(text, |text|);
    assert text[..|text|] == text;
  }

  lemma NoSlashIn(f: seq<byte>)
    requires forall i :: 0 <= i < |f| ==> !IsSlash(f[i])
    ensures forall i :: 0 <= i < |Trim(f)| ==> !IsSlash(Trim(f)[i])
  {
    var t := Trim(f);
    assert forall i :: 0 <= i < |t| ==> t[i] == f[i];
  }

  /** Without a dot the name gets the extension passed along ... */
  lemma ExtensionAdded(stem: seq<byte>, ext: seq<byte>)
    requires Bare(stem) && stem != [] && DOT !in stem && |ext| == 3
    requires forall i :: 0 <= i < 3 ==> !IsSlash(ext[i])
    ensures ParseNode(BuildPath(stem, ext)) == Node(Field(stem, 8), Field(Trim(ext), 3), [])
  {
    hide Field, ParseNode, BuildPath, Trim;
    BuildBare(stem, ext);
    NoSlashIn(ext);
    TrimIs(ext, if ext[0] == SPACE then 0 else |Trim(ext)|);
    if ext[0] == SPACE { ParseStem(stem); } else { ParseDotted(stem, Trim(ext)); }
  }

  /** ... with a dot it keeps its own, whatever is passed along. */
  lemma ExtensionKept(stem: seq<byte>, tail: seq<byte>, ext: seq<byte>)
    requires Bare(stem + [DOT] + tail) && DOT !in stem
    ensures ParseNode(BuildPath(stem + [DOT] + tail, ext)) == Node(Field(stem, 8), Field(tail, 3), [])
  {
    hide Field, ParseNode, BuildPath, Trim;
    var text := stem + [DOT] + tail;
    assert text[|stem|] == DOT;
    BuildBare(text, ext);
    assert forall i :: 0 <= i < |stem| ==> text[i] == stem[i];
    assert forall i :: 0 <= i < |tail| ==> text[|stem| + 1 + i] == tail[i];
    ParseDotted(stem, tail);
  }

  /** A name ends at its first space and after sixty bytes. */
  lemma NameEnds(text: seq<byte>, more: seq<byte>, ext: seq<byte>)
    requires |text| <= 60 && SPACE !in text && (more == [] || more[0] == SPACE || |text| == 60)
    ensures BuildPath(text + more, ext) == BuildPath(text, ext)
  {
    var all := text + more;
    var kept := if |all| <= 60 then all else all[..60];
    assert kept[..|text|] == text;
    TrimIs(kept, |text|);
    TrimIs(text, |text|);
    assert text[..|text|] == text;
  }
}
