/** Looking paths up and walking the tree, as the reader does both. */
module DirAccess {
  import opened Common
  import opened InodeTable
  import opened DirTree

  // -------------------------------------------------------------- lookup

  datatype Lookup = Corrupt | Absent | Found(inode: nat)

  datatype Order = Before | Same | After

  function Compare(a: Bytes, b: Bytes): Order {
    if a == b then Same else if Less(a, b) then Before else After
  }

  // Binary search for a name among one directory's entries.
  method LookupOne(t: Tree, d: nat, name: Bytes) returns (r: Lookup)
    ensures Shaped(t) && SortedNames(t) && d < DirCount(t) ==>
              First(t, d) <= First(t, d + 1)
              && r == match FindName(t, d, First(t, d), name)
                      case None => Absent
                      case Some(e) => FoundAt(t, d, e)
  {
    var range := EntryRange(t, d);
    if range.None? {
      if Shaped(t) && d < DirCount(t) {
        RangeOfDirectory(t, d);
      }
      return Corrupt;
    }
    var lo, hi := range.value.0, range.value.1;
    ghost var good := Shaped(t) && SortedNames(t) && d < DirCount(t);
    if good {
      RangeOfDirectory(t, d);
    }
    while lo < hi
      invariant range.value.0 <= lo <= hi <= range.value.1
      invariant good ==> forall e: nat :: InRange(t, d, e) && (e < lo || hi <= e) ==> NameIn(t, d, e) != name
    {
      var mid := lo + (hi - lo) / 2;
      var entry := t.entries[mid];
      if good {
        RangeSound(t, d, mid);
        SearchStep(t, d, mid, name);
      }
      if entry.nameIndex >= |t.names| {
        return Corrupt;
      }
      match Compare(t.names[entry.nameIndex], name)
      case Before => lo := mid + 1;
      case After => hi := mid;
      case Same =>
        if good {
          FoundHere(t, d, mid, name);
        }
        return Found(entry.inode);
    }
    if good {
      FindNameSound(t, d, First(t, d), name);
    }
    r := Absent;
  }

  ghost function FoundAt(t: Tree, d: nat, e: nat): Lookup {
    if e < |t.entries| then Found(t.entries[e].inode) else Corrupt
  }

  // Comparing with one entry rules out everything on its far side.
  lemma SearchStep(t: Tree, d: nat, mid: nat, name: Bytes)
    requires Shaped(t) && SortedNames(t) && InRange(t, d, mid)
    ensures Compare(NameIn(t, d, mid), name).Before? ==>
              forall e: nat :: InRange(t, d, e) && e <= mid ==> NameIn(t, d, e) != name
    ensures Compare(NameIn(t, d, mid), name).After? ==>
              forall e: nat :: InRange(t, d, e) && mid <= e ==> NameIn(t, d, e) != name
  {
    var here := NameIn(t, d, mid);
    LessTotal(here, name);
    forall e: nat | InRange(t, d, e) && e <= mid && Less(here, name) ensures NameIn(t, d, e) != name {
      LessTotal(name, name);
      if e < mid {
        NamesRise(t, d, e, mid);
        LessTransitive(NameIn(t, d, e), here, name);
      }
    }
    forall e: nat | InRange(t, d, e) && mid <= e && Less(name, here) ensures NameIn(t, d, e) != name {
      LessTotal(name, name);
      if mid < e {
        NamesRise(t, d, mid, e);
        LessTransitive(name, here, NameIn(t, d, e));
      }
    }
  }

  lemma FoundHere(t: Tree, d: nat, e: nat, name: Bytes)
    requires Shaped(t) && SortedNames(t) && InRange(t, d, e) && NameIn(t, d, e) == name
    ensures First(t, d) <= First(t, d + 1) && FindName(t, d, First(t, d), name) == Some(e)
  {
    forall e': nat | First(t, d) <= e' < e ensures NameIn(t, d, e') != name {
      NamesRise(t, d, e', e);
      LessTotal(name, name);
    }
    FirstMatch(t, d, First(t, d), e, name);
  }

  lemma {:induction false} FirstMatch(t: Tree, d: nat, lo: nat, e: nat, name: Bytes)
    requires Shaped(t) && InRange(t, d, e) && NameIn(t, d, e) == name && First(t, d) <= lo <= e
    requires forall e': nat :: lo <= e' < e ==> NameIn(t, d, e') != name
    ensures FindName(t, d, lo, name) == Some(e)
    decreases e - lo
  {
    if lo < e {
      FirstMatch(t, d, lo + 1, e, name);
    }
  }

  // ----------------------------------------------------------------- paths

  // The non-empty stretches between slashes.
  function Split(path: Bytes): seq<Bytes>
    decreases |path|
  {
    if path == [] then []
    else
      var k := HeadLen(path);
      var rest := if k < |path| then Split(path[k + 1..]) else [];
      if k == 0 then rest else [path[..k]] + rest
  }

  // Length of the stretch before the first slash.
  function HeadLen(path: Bytes): (k: nat)
    ensures k <= |path|
    ensures SLASH !in path[..k] && (k < |path| ==> path[k] == SLASH)
  {
    if path == [] || path[0] == SLASH then 0
    else
      assert path[..1 + HeadLen(path[1..])] == [path[0]] + path[1..][..HeadLen(path[1..])];
      1 + HeadLen(path[1..])
  }

  function Join(comps: seq<Bytes>): Bytes {
    if comps == [] then [] else [SLASH] + comps[0] + Join(comps[1..])
  }

  // The path a walk reports for what a caller may have spelled with extra slashes.
  function Normalize(path: Bytes): Bytes {
    Join(Split(path))
  }

  predicate ValidComps(comps: seq<Bytes>) {
    forall i :: 0 <= i < |comps| ==> ValidName(comps[i])
  }

  lemma {:induction false} SplitIsValid(path: Bytes)
    ensures ValidComps(Split(path))
    decreases |path|
  {
    if path != [] {
      var k := HeadLen(path);
      if k < |path| {
        SplitIsValid(path[k + 1..]);
      }
    }
  }

  lemma {:induction false} HeadOf(name: Bytes, rest: Bytes)
    requires SLASH !in name && (rest == [] || rest[0] == SLASH)
    ensures HeadLen(name + rest) == |name|
  {
    if name == [] {
      assert name + rest == rest;
    } else {
      assert (name + rest)[0] == name[0] && (name + rest)[1..] == name[1..] + rest;
      HeadOf(name[1..], rest);
    }
  }

  lemma SplitAfterSlash(path: Bytes)
    ensures Split([SLASH] + path) == Split(path)
  {
    assert ([SLASH] + path)[1..] == path;
  }

  lemma SplitAfterName(name: Bytes, rest: Bytes)
    requires ValidName(name) && (rest == [] || rest[0] == SLASH)
    ensures Split(name + rest) == [name] + Split(rest)
  {
    hide HeadLen;
    var path := name + rest;
    HeadOf(name, rest);
    assert path[..|name|] == name;
    if rest == [] {
      assert Split(path) == [name];
    } else {
      assert path[|name| + 1..] == rest[1..];
      SplitStep(path);
      assert rest == [SLASH] + rest[1..];
      SplitAfterSlash(rest[1..]);
    }
  }

  lemma SplitStep(path: Bytes)
    requires 0 < HeadLen(path) < |path|
    ensures Split(path) == [path[..HeadLen(path)]] + Split(path[HeadLen(path) + 1..])
  {
    hide HeadLen;
  }

  // Splitting a joined path gives its components back.
  lemma {:induction false} SplitInvertsJoin(comps: seq<Bytes>)
    requires ValidComps(comps)
    ensures Split(Join(comps)) == comps
  {
    if comps != [] {
      var rest := Join(comps[1..]);
      SplitInvertsJoin(comps[1..]);
      assert Join(comps) == [SLASH] + (comps[0] + rest);
      SplitAfterSlash(comps[0] + rest);
      SplitAfterName(comps[0], rest);
    }
  }

  // It is the byte of a slash that parts them.
  lemma SlashParts(a: Bytes, b: Bytes)
    requires a != [] && b != [] && 0x2F !in a && 0x2F !in b
    ensures Split([0x2F] + a + [0x2F] + b) == [a, b]
  {
    var comps: seq<Bytes> := [a, b];
    SplitInvertsJoin(comps);
    var last: seq<Bytes> := [b];
    assert comps[1..] == last && last[1..] == [];
    assert Join(last) == [0x2F] + b;
    assert Join(comps) == [0x2F] + a + Join(last) == [0x2F] + a + [0x2F] + b;
  }

  // All that searching by name needs.
  ghost predicate Searchable(t: Tree) {
    Shaped(t) && SortedNames(t)
  }

  // Component by component from the root.
  method LookupPath(t: Tree, path: Bytes) returns (r: Option<nat>)
    ensures Searchable(t) ==> r == Resolve(t, 0, Split(path))
  {
    var inode: nat := 0;
    var comps := Split(path);
    var i := 0;
    while i < |comps|
      invariant 0 <= i <= |comps|
      invariant Searchable(t) ==> Resolve(t, inode, comps[i..]) == Resolve(t, 0, comps)
      invariant Searchable(t) ==> inode < |t.kinds|
    {
      if !IsDirectory(t, inode) {
        return None;
      }
      var found := LookupOne(t, inode, comps[i]);
      assert comps[i..][0] == comps[i] && comps[i..][1..] == comps[i + 1..];
      if Searchable(t) {
        FindNameSound(t, inode, First(t, inode), comps[i]);
        if found.Found? {
          RangeSound(t, inode, FindName(t, inode, First(t, inode), comps[i]).value);
        }
      }
      if !found.Found? {
        return None;
      }
      inode := found.inode;
      i := i + 1;
    }
    if inode >= |t.kinds| {
      return None;
    }
    r := Some(inode);
  }
}
