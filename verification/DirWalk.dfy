/** The depth-first walk: what it yields, and that lookup agrees with it. */
module DirWalk {
  import opened Common
  import opened InodeTable
  import opened DirTree
  import opened DirAccess

  // Listing directory d goes through: it is one, its entries are bounded, and each is sound.
  ghost predicate CanList(t: Tree, d: nat) {
    && IsDirectory(t, d) && EntryRange(t, d).Some?
    && forall e: nat :: EntryRange(t, d).value.0 <= e < EntryRange(t, d).value.1 ==> EntrySound(t, e)
  }

  ghost function ListingOf(t: Tree, e: nat): Listing
    requires EntrySound(t, e)
  {
    Listing(t.entries[e].inode, t.kinds[t.entries[e].inode], NameOf(t, e))
  }

  // The entries of one directory, in order.
  method ReadDir(t: Tree, d: nat) returns (r: Option<seq<Listing>>)
    ensures r.Some? <==> CanList(t, d)
    ensures r.Some? ==>
              var (begin, end) := EntryRange(t, d).value;
              |r.value| == end - begin && forall i: nat :: i < |r.value| ==> r.value[i] == ListingOf(t, begin + i)
  {
    if !IsDirectory(t, d) || EntryRange(t, d).None? {
      return None;
    }
    var begin, end := EntryRange(t, d).value.0, EntryRange(t, d).value.1;
    var out: seq<Listing> := [];
    var i: nat := begin;
    while i < end
      invariant begin <= i <= end && |out| == i - begin
      invariant forall e: nat :: begin <= e < i ==> EntrySound(t, e) && out[e - begin] == ListingOf(t, e)
    {
      var entry := t.entries[i];
      if entry.nameIndex >= |t.names| || entry.inode >= |t.kinds| {
        assert !EntrySound(t, i);
        return None;
      }
      out := out + [Listing(entry.inode, t.kinds[entry.inode], t.names[entry.nameIndex])];
      i := i + 1;
    }
    r := Some(out);
  }

  lemma ShapedLists(t: Tree, d: nat)
    requires Shaped(t) && d < DirCount(t)
    ensures CanList(t, d) && EntryRange(t, d) == Some((First(t, d), First(t, d + 1)))
  {
    RangeOfDirectory(t, d);
    forall e: nat | First(t, d) <= e < First(t, d + 1) ensures EntrySound(t, e) {
      RangeSound(t, d, e);
    }
  }

  ghost function ChildOf(t: Tree, d: nat, e: nat): (c: nat)
    requires Shaped(t) && InRange(t, d, e)
    ensures c < |t.kinds|
  {
    RangeSound(t, d, e);
    t.entries[e].inode
  }

  // The walk of one entry: the entry itself, then what lies below it.
  ghost function WalkOne(t: Tree, d: nat, prefix: Bytes, e: nat): seq<WalkEntry>
    requires CanWalk(t, d) && InRange(t, d, e)
  {
    [WalkEntry(ChildPath(t, d, prefix, e), ChildOf(t, d, e), t.kinds[ChildOf(t, d, e)])] + SubWalk(t, d, prefix, e)
  }

  lemma WalkStep(t: Tree, d: nat, prefix: Bytes, e: nat, out: seq<WalkEntry>)
    requires CanWalk(t, d) && InRange(t, d, e)
    ensures out + WalkFrom(t, d, prefix, e) == out + WalkOne(t, d, prefix, e) + WalkFrom(t, d, prefix, e + 1)
  {
    assert WalkFrom(t, d, prefix, e) == WalkOne(t, d, prefix, e) + WalkFrom(t, d, prefix, e + 1);
  }

  // Appends a directory's entries, each followed by what lies below it. The source recurses without a guard, so no
  // descent from the root may go on for ever; a table that is not sound where the walk goes is an error.
  method WalkInner(t: Tree, d: nat, prefix: Bytes, out: seq<WalkEntry>) returns (r: Option<seq<WalkEntry>>)
    requires Walkable(t) && Reachable(t, d)
    ensures CanWalk(t, d) ==>
              First(t, d) <= First(t, d + 1) && r == Some(out + WalkFrom(t, d, prefix, First(t, d)))
    decreases Height(t, d), 1
  {
    ghost var good := CanWalk(t, d);
    if good {
      ShapedLists(t, d);
    }
    var listing := ReadDir(t, d);
    if listing.None? {
      return None;
    }
    var entries := listing.value;
    ghost var begin := EntryRange(t, d).value.0;
    var done := out;
    var i: nat := 0;
    while i < |entries|
      invariant i <= |entries|
      invariant good ==> done + WalkFrom(t, d, prefix, begin + i) == out + WalkFrom(t, d, prefix, begin)
    {
      if good {
        WalkStep(t, d, prefix, begin + i, done);
      }
      assert entries[i] == ListingOf(t, begin + i);
      var next := WalkEntryBelow(t, d, prefix, begin + i, entries[i], done);
      if next.None? {
        return None;
      }
      done := next.value;
      i := i + 1;
    }
    if good {
      assert done + WalkFrom(t, d, prefix, First(t, d + 1)) == done;
    }
    r := Some(done);
  }

  method WalkEntryBelow(t: Tree, d: nat, prefix: Bytes, ghost e: nat, entry: Listing, out: seq<WalkEntry>)
    returns (r: Option<seq<WalkEntry>>)
    requires Walkable(t) && Reachable(t, d) && CanList(t, d)
    requires EntryRange(t, d).value.0 <= e < EntryRange(t, d).value.1 && EntrySound(t, e) && entry == ListingOf(t, e)
    ensures CanWalk(t, d) ==> InRange(t, d, e) && r == Some(out + WalkOne(t, d, prefix, e))
    decreases Height(t, d), 0
  {
    if CanWalk(t, d) {
      RangeOfDirectory(t, d);
    }
    var path := prefix + [SLASH] + entry.name;
    var out' := out + [WalkEntry(path, entry.inode, entry.kind)];
    if entry.kind != Directory {
      assert CanWalk(t, d) ==> out' == out + WalkOne(t, d, prefix, e);
      return Some(out');
    }
    DescentFalls(t, d, e, entry.inode);
    r := WalkInner(t, entry.inode, path, out');
    if CanWalk(t, d) {
      assert out + WalkOne(t, d, prefix, e) == out' + SubWalk(t, d, prefix, e);
    }
  }

  method Walk(t: Tree) returns (r: Option<seq<WalkEntry>>)
    requires Walkable(t)
    ensures Shaped(t) ==> r == Some(WalkSpec(t))
  {
    if |t.kinds| == 0 {
      return None;
    }
    RootIsReached(t);
    r := WalkInner(t, 0, [], [WalkEntry([], 0, t.kinds[0])]);
  }

  // A walk names inodes there are, under the kinds they have.
  lemma {:induction false} WalkedIsListed(t: Tree, d: nat, prefix: Bytes, lo: nat, w: WalkEntry)
    requires CanWalk(t, d) && First(t, d) <= lo <= First(t, d + 1) && w in WalkFrom(t, d, prefix, lo)
    ensures w.inode < |t.kinds| && w.kind == t.kinds[w.inode]
    decreases Height(t, d), First(t, d + 1) - lo
  {
    RangeSound(t, d, lo);
    var c := ChildOf(t, d, lo);
    if w in SubWalk(t, d, prefix, lo) {
      HeightFalls(t, d, lo, c);
      WalkedIsListed(t, c, ChildPath(t, d, prefix, lo), First(t, c), w);
    } else if w in WalkFrom(t, d, prefix, lo + 1) {
      WalkedIsListed(t, d, prefix, lo + 1, w);
    }
  }

  // ------------------------------------------------- lookup agrees with walk

  lemma JoinStep(prefix: Bytes, name: Bytes, rest: seq<Bytes>)
    ensures prefix + Join([name] + rest) == prefix + [SLASH] + name + Join(rest)
  {
    assert ([name] + rest)[1..] == rest;
  }

  // Every path that resolves below a directory is walked there, with the same inode.
  lemma {:induction false} ResolvedIsWalked(t: Tree, d: nat, prefix: Bytes, comps: seq<Bytes>)
    requires CanWalk(t, d) && comps != [] && Resolve(t, d, comps).Some?
    ensures First(t, d) <= First(t, d + 1)
    ensures exists w :: w in WalkFrom(t, d, prefix, First(t, d)) && w.path == prefix + Join(comps)
                        && w.inode == Resolve(t, d, comps).value
    decreases |comps|
  {
    assert First(t, d) <= First(t, d + 1);
    FindNameSound(t, d, First(t, d), comps[0]);
    var e := FindName(t, d, First(t, d), comps[0]).value;
    RangeSound(t, d, e);
    var c := t.entries[e].inode;
    var path := ChildPath(t, d, prefix, e);
    assert comps == [comps[0]] + comps[1..];
    JoinStep(prefix, comps[0], comps[1..]);
    if comps[1..] == [] {
      var w := WalkEntry(path, c, t.kinds[c]);
      WalkContains(t, d, prefix, First(t, d), e);
      assert path + Join([]) == path;
      assert w in WalkFrom(t, d, prefix, First(t, d)) && w.path == prefix + Join(comps);
    } else {
      HeightFalls(t, d, e, c);
      ResolvedIsWalked(t, c, path, comps[1..]);
      var w :| w in WalkFrom(t, c, path, First(t, c)) && w.path == path + Join(comps[1..])
               && w.inode == Resolve(t, c, comps[1..]).value;
      WalkContains(t, d, prefix, First(t, d), e);
      assert w in SubWalk(t, d, prefix, e);
    }
  }

  // Walking from `lo` yields each later entry of the directory and everything below it.
  lemma {:induction false} WalkContains(t: Tree, d: nat, prefix: Bytes, lo: nat, e: nat)
    requires CanWalk(t, d) && InRange(t, d, e) && First(t, d) <= lo <= e
    ensures var c := ChildOf(t, d, e);
            WalkEntry(ChildPath(t, d, prefix, e), c, t.kinds[c]) in WalkFrom(t, d, prefix, lo)
    ensures forall w :: w in SubWalk(t, d, prefix, e) ==> w in WalkFrom(t, d, prefix, lo)
    decreases e - lo
  {
    if lo < e {
      WalkContains(t, d, prefix, lo + 1, e);
    }
  }

  // Everything walked below a directory resolves from it, by the components of its path.
  lemma {:induction false} WalkedResolves(t: Tree, d: nat, prefix: Bytes, lo: nat, w: WalkEntry)
    returns (comps: seq<Bytes>)
    requires WellFormed(t) && d < DirCount(t) && First(t, d) <= lo <= First(t, d + 1)
    requires w in WalkFrom(t, d, prefix, lo)
    ensures comps != [] && ValidComps(comps) && w.path == prefix + Join(comps)
    ensures Resolve(t, d, comps) == Some(w.inode)
    decreases Height(t, d), First(t, d + 1) - lo
  {
    RangeSound(t, d, lo);
    var c := ChildOf(t, d, lo);
    var name := NameIn(t, d, lo);
    var path := ChildPath(t, d, prefix, lo);
    FoundHere(t, d, lo, name);
    if w == WalkEntry(path, c, t.kinds[c]) {
      comps := [name];
      JoinStep(prefix, name, []);
      assert [name] + [] == [name] && path + Join([]) == path;
      assert comps[1..] == [];
    } else if w in SubWalk(t, d, prefix, lo) {
      HeightFalls(t, d, lo, c);
      var rest := WalkedResolves(t, c, path, First(t, c), w);
      comps := [name] + rest;
      JoinStep(prefix, name, rest);
      assert comps[1..] == rest;
    } else {
      comps := WalkedResolves(t, d, prefix, lo + 1, w);
    }
  }

  // A path looks up to an inode exactly when the walk yields that inode under the
  // path's normal spelling.
  lemma LookupAgreesWithWalk(t: Tree, path: Bytes, n: nat)
    requires WellFormed(t)
    ensures Resolve(t, 0, Split(path)) == Some(n) <==>
              exists w :: w in WalkSpec(t) && w.path == Normalize(path) && w.inode == n
  {
    var comps := Split(path);
    SplitIsValid(path);
    var root := WalkEntry([], 0, Directory);
    assert root in WalkSpec(t);
    if Resolve(t, 0, comps) == Some(n) {
      if comps == [] {
        assert root.path == Normalize(path) && root.inode == n;
      } else {
        ResolvedIsWalked(t, 0, [], comps);
        var w :| w in WalkFrom(t, 0, [], First(t, 0)) && w.path == [] + Join(comps)
                 && w.inode == Resolve(t, 0, comps).value;
        assert w in WalkSpec(t) && [] + Join(comps) == Normalize(path);
      }
    }
    if w :| w in WalkSpec(t) && w.path == Normalize(path) && w.inode == n {
      if w == root {
        SplitInvertsJoin(comps);
        assert Split([]) == [];
      } else {
        var found := WalkedResolves(t, 0, [], First(t, 0), w);
        assert [] + Join(found) == Join(found);
        SplitInvertsJoin(found);
        SplitInvertsJoin(comps);
      }
    }
  }
}
