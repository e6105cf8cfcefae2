/** Paths as src/disk.c builds, splits and prints them, buffer by buffer. A C string is
    the sequence of its bytes before the terminating zero. */
module Paths {
  import opened Bytes
  import opened PathSpec

  predicate Stops(c: byte, dots: bool) { IsSlash(c) || (dots && c == DOT) }

  /** One of the two copying loops of `parse_path_node`: upper-case the next part into
      a field that was blanked before, and return the pointer behind it. */
  method CopyPart(path: seq<byte>, dots: bool, field: array<byte>) returns (rest: seq<byte>)
    requires field[..] == Field([], field.Length)
    modifies field
    ensures rest == path[PartLength(path, dots)..]
    ensures field[..] == Field(path[..PartLength(path, dots)], field.Length)
  {
    var end, i := 0, 0;
    assert forall k :: 0 <= k < field.Length ==> field[k] == field[..][k];
    while end < |path| && !Stops(path[end], dots)
      invariant end <= |path| && i <= field.Length
      invariant i == if end < field.Length then end else field.Length
      invariant forall k :: 0 <= k < end ==> !Stops(path[k], dots)
      invariant forall k :: 0 <= k < field.Length ==> field[k] == if k < end then Upper(path[k]) else SPACE
    {
      if i < field.Length {
        field[i] := Upper(path[end]);
        i := i + 1;
      }
      end := end + 1;
    }
    PartLengthIs(path, end, dots);
    rest := path[end..];
  }

  method SkipSlash(path: seq<byte>) returns (rest: seq<byte>)
    ensures rest == DropSlash(path)
  {
    rest := path;
    if rest != [] && IsSlash(rest[0]) { rest := rest[1..]; }
  }

  method Blank(field: array<byte>)
    modifies field
    ensures field[..] == Field([], field.Length)
  {
    for i := 0 to field.Length
      invariant forall k :: 0 <= k < i ==> field[k] == SPACE
    {
      field[i] := SPACE;
    }
  }

  /** `parse_path_node`; the caller's path pointer moves on to `rest`. */
  method ParsePathNode(path: seq<byte>, name8: array<byte>, ext3: array<byte>) returns (found: bool, rest: seq<byte>)
    requires name8 != ext3 && name8.Length == 8 && ext3.Length == 3
    modifies name8, ext3
    ensures found == ParseNode(path).Node?
    ensures found ==> Node(name8[..], ext3[..], rest) == ParseNode(path)
  {
    hide Field, PartLength, DropSlash;
    rest := path;
    if path == [] { return false, path; }
    rest := SkipSlash(path);
    if rest == [] { return false, rest; }
    Blank(name8);
    Blank(ext3);
    rest := CopyPart(rest, true, name8);
    if rest != [] && rest[0] == DOT {
      rest := CopyPart(rest[1..], false, ext3);
    }
    rest := SkipSlash(rest);
    return true, rest;
  }

  /** Bytes before the first space, at most `limit` of them, appended at `p`. */
  method AppendTrimmed(text: seq<byte>, limit: nat, target: array<byte>, p: nat) returns (end: nat, hasDot: bool)
    requires p + limit <= target.Length
    modifies target
    ensures target[..p] == old(target[..p])
    ensures p <= end <= target.Length && hasDot == (DOT in target[p..end])
    ensures target[p..end] == Trim(if |text| <= limit then text else text[..limit])
  {
    end, hasDot := p, false;
    var k := 0;
    while k < limit && k < |text| && text[k] != SPACE
      invariant k <= limit && k <= |text| && end == p + k
      invariant target[..p] == old(target[..p]) && target[p..end] == text[..k]
      invariant SPACE !in text[..k] && hasDot == (DOT in text[..k])
    {
      target[end] := text[k];
      if text[k] == DOT { hasDot := true; }
      end := end + 1;
      k := k + 1;
    }
    var cut := if |text| <= limit then text else text[..limit];
    assert cut[..k] == text[..k];
    TrimIs(cut, k);
  }

  /** The path that `ardaos_read_file` and `vfs_open` put together. */
  method BuildFullPath(name: seq<byte>, ext: seq<byte>) returns (path: seq<byte>)
    ensures path == BuildPath(name, ext)
  {
    hide Trim;
    var full := new byte[64];
    var p, hasDot := AppendTrimmed(name, 60, full, 0);
    assert full[0..p] == full[..p];
    if !hasDot && ext != [] && ext[0] != SPACE {
      full[p] := DOT;
      ghost var front := full[..p + 1];
      assert front == Trim(if |name| <= 60 then name else name[..60]) + [DOT];
      var end, _ := AppendTrimmed(ext, 3, full, p + 1);
      assert full[..end] == full[..p + 1] + full[p + 1..end];
      p := end;
    }
    path := full[..p];
  }

  /** The name part of a line of `vfs_list_dir`. */
  method PrintName(name: seq<byte>, ext: seq<byte>, isDirectory: bool) returns (text: seq<byte>)
    requires |name| == 8 && |ext| == 3
    ensures text == if isDirectory then Trim(name) else ListName(name, ext)
    ensures Canonical(name, ext) && (!isDirectory || Trim(ext) == []) ==> ParseNode(text) == Node(name, ext, [])
  {
    var buffer := new byte[12];
    var t, _ := AppendTrimmed(name, 8, buffer, 0);
    text := buffer[0..t];
    if !isDirectory {
      var e, _ := AppendTrimmed(ext, 3, buffer, 0);
      if e > 0 { text := text + [DOT] + buffer[0..e]; }
    }
    if Canonical(name, ext) { BuildOfCanonical(name, ext); }
  }
}
