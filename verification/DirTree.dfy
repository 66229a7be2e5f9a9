/**
 The directory tree as the metadata stores it: a table of directories, each
 owning a stretch of the entry table, entries sorted by name within a directory.
 Lookup is a binary search per component, walking a depth-first traversal. A walk
 ends on any table whose descents do; on a well-formed tree lookup and walk describe
 the same paths.
 */
module DirTree {
  import opened Common
  import opened InodeTable

  datatype DirEntry = DirEntry(nameIndex: u32, inode: u32)

  datatype DirRecord = DirRecord(parentEntry: u32, firstEntry: u32, selfEntry: u32)

  // `dirs` closes with a sentinel record whose firstEntry ends the last directory.
  datatype Tree = Tree(kinds: seq<InodeKind>, dirs: seq<DirRecord>, entries: seq<DirEntry>, names: seq<Bytes>)

  datatype Listing = Listing(inode: nat, kind: InodeKind, name: Bytes)

  datatype WalkEntry = WalkEntry(path: Bytes, inode: nat, kind: InodeKind)

  const SLASH: byte := 0x2F

  // ---------------------------------------------------------------- names

  // The first byte in which two names differ.
  predicate DifferAt(a: Bytes, b: Bytes, k: nat) {
    k < |a| && k < |b| && a[..k] == b[..k] && a[k] != b[k]
  }

  // The order of directory entries: a name stops where the other goes on, or has the smaller byte where they first
  // differ.
  ghost predicate Precedes(a: Bytes, b: Bytes) {
    a < b || exists k: nat :: DifferAt(a, b, k) && a[k] < b[k]
  }

  // The comparison as it is carried out, byte after byte.
  predicate Less(a: Bytes, b: Bytes) {
    b != [] && (a == [] || a[0] < b[0] || (a[0] == b[0] && Less(a[1..], b[1..])))
  }

  lemma AlikeBefore(a: Bytes, b: Bytes, k: nat)
    requires DifferAt(a, b, k)
    ensures k > 0 ==> a[0] == b[0]
  {
    if k > 0 {
      assert a[..k][0] == b[..k][0];
    }
  }

  lemma {:induction false} LessIsByteOrder(a: Bytes, b: Bytes)
    ensures Less(a, b) <==> Precedes(a, b)
  {
    if a == [] || b == [] {
      assert b != [] ==> a < b;
    } else if a[0] != b[0] {
      assert DifferAt(a, b, 0);
      forall k: nat | DifferAt(a, b, k) ensures k == 0 {
        AlikeBefore(a, b, k);
      }
    } else {
      LessIsByteOrder(a[1..], b[1..]);
      TailsOrdered(a, b);
    }
  }

  // Names that start alike are ordered as what follows is.
  lemma TailsOrdered(a: Bytes, b: Bytes)
    requires a != [] && b != [] && a[0] == b[0]
    ensures Precedes(a, b) <==> Precedes(a[1..], b[1..])
  {
    var x, y := a[1..], b[1..];
    assert a == [a[0]] + x && b == [b[0]] + y;
    assert a < b <==> x < y by {
      if a < b {
        assert b[..|a|][1..] == y[..|x|];
      }
      if x < y {
        assert b[..|a|] == [b[0]] + y[..|x|];
      }
    }
    forall k: nat | DifferAt(x, y, k) ensures DifferAt(a, b, k + 1) && a[k + 1] == x[k] && b[k + 1] == y[k] {
      assert a[..k + 1] == [a[0]] + x[..k] && b[..k + 1] == [b[0]] + y[..k];
    }
    forall k: nat | DifferAt(a, b, k) ensures k > 0 && DifferAt(x, y, k - 1) && a[k] == x[k - 1] && b[k] == y[k - 1] {
      if k > 0 {
        assert x[..k - 1] == a[..k][1..] && y[..k - 1] == b[..k][1..];
      }
    }
  }

  lemma {:induction false} LessTransitive(a: Bytes, b: Bytes, c: Bytes)
    requires Less(a, b) && Less(b, c)
    ensures Less(a, c)
  {
    if a != [] && a[0] == b[0] == c[0] {
      LessTransitive(a[1..], b[1..], c[1..]);
    }
  }

  lemma {:induction false} LessTotal(a: Bytes, b: Bytes)
    ensures a == b || Less(a, b) || Less(b, a)
    ensures !(Less(a, b) && Less(b, a)) && !Less(a, a)
  {
    if a != [] && b != [] && a[0] == b[0] {
      LessTotal(a[1..], b[1..]);
      LessTotal(a[1..], a[1..]);
      assert a == [a[0]] + a[1..] && b == [b[0]] + b[1..];
    } else if a != [] {
      LessTotal(a[1..], a[1..]);
    }
  }

  predicate ValidName(name: Bytes) {
    name != [] && SLASH !in name
  }

  // ---------------------------------------------------------- well-formedness

  function DirCount(t: Tree): int {
    |t.dirs| - 1
  }

  function First(t: Tree, d: nat): nat
    requires d < |t.dirs|
  {
    t.dirs[d].firstEntry
  }

  predicate InRange(t: Tree, d: nat, e: nat) {
    d < DirCount(t) && First(t, d) <= e < First(t, d + 1)
  }

  function NameOf(t: Tree, e: nat): Bytes
    requires e < |t.entries| && t.entries[e].nameIndex < |t.names|
  {
    t.names[t.entries[e].nameIndex]
  }

  // Entry e of directory p points at inode c.
  predicate Named(t: Tree, p: nat, e: nat, c: nat) {
    InRange(t, p, e) && e < |t.entries| && t.entries[e].inode == c
  }

  predicate EntrySound(t: Tree, e: nat) {
    && e < |t.entries|
    && t.entries[e].inode < |t.kinds|
    && t.entries[e].nameIndex < |t.names|
  }

  ghost predicate Shaped(t: Tree) {
    && 0 < DirCount(t) <= |t.kinds|
    && (forall i: nat :: i < |t.kinds| ==> (t.kinds[i] == Directory <==> i < DirCount(t)))
    && (forall d: nat, d': nat :: d <= d' < |t.dirs| ==> First(t, d) <= First(t, d'))
    && First(t, DirCount(t)) == |t.entries|
    && (forall e: nat :: First(t, 0) <= e < |t.entries| ==> EntrySound(t, e))
  }

  ghost predicate SortedNames(t: Tree)
    requires Shaped(t)
  {
    forall d: nat, e: nat, e': nat :: InRange(t, d, e) && InRange(t, d, e') && e < e' ==>
      Precedes(NameIn(t, d, e), NameIn(t, d, e'))
  }

  lemma NamesRise(t: Tree, d: nat, e: nat, e': nat)
    requires Shaped(t) && SortedNames(t) && InRange(t, d, e) && InRange(t, d, e') && e < e'
    ensures Less(NameIn(t, d, e), NameIn(t, d, e'))
  {
    LessIsByteOrder(NameIn(t, d, e), NameIn(t, d, e'));
  }

  ghost predicate ValidNames(t: Tree)
    requires Shaped(t)
  {
    forall d: nat, e: nat :: InRange(t, d, e) ==> ValidName(NameIn(t, d, e))
  }

  ghost function NameIn(t: Tree, d: nat, e: nat): Bytes
    requires Shaped(t) && InRange(t, d, e)
  {
    RangeSound(t, d, e);
    NameOf(t, e)
  }

  lemma RangeSound(t: Tree, d: nat, e: nat)
    requires Shaped(t) && InRange(t, d, e)
    ensures EntrySound(t, e)
  {
    assert First(t, 0) <= First(t, d) && First(t, d + 1) <= First(t, DirCount(t));
  }

  // The entries of a directory, or nothing when the table does not bound them.
  function EntryRange(t: Tree, d: nat): Option<(nat, nat)> {
    if d >= |t.dirs| then None
    else
      var end := if d + 1 < |t.dirs| then First(t, d + 1) else |t.entries|;
      if end > |t.entries| || First(t, d) > end then None else Some((First(t, d), end))
  }

  lemma RangeOfDirectory(t: Tree, d: nat)
    requires Shaped(t) && d < DirCount(t)
    ensures EntryRange(t, d) == Some((First(t, d), First(t, d + 1)))
  {
    assert First(t, d) <= First(t, d + 1) <= First(t, DirCount(t));
  }

  predicate IsDirectory(t: Tree, inode: nat) {
    inode < |t.kinds| && t.kinds[inode] == Directory
  }

  // Listing directory p turns up directory c, at entry e.
  predicate Descends(t: Tree, p: nat, e: nat, c: nat) {
    && IsDirectory(t, p) && IsDirectory(t, c) && EntryRange(t, p).Some?
    && EntryRange(t, p).value.0 <= e < EntryRange(t, p).value.1 && t.entries[e].inode == c
  }

  lemma DescendsIffNamed(t: Tree, p: nat, e: nat, c: nat)
    requires Shaped(t)
    ensures Descends(t, p, e, c) <==> Named(t, p, e, c) && c < DirCount(t)
  {
    if p < DirCount(t) {
      RangeOfDirectory(t, p);
    }
  }

  // Directory d can be reached from the root in n steps.
  ghost predicate ReachedIn(t: Tree, d: nat, n: nat)
    decreases n
  {
    if n == 0 then d == 0 else exists p: nat, e: nat :: Descends(t, p, e, d) && ReachedIn(t, p, n - 1)
  }

  ghost predicate Reachable(t: Tree, d: nat) {
    exists n: nat :: ReachedIn(t, d, n)
  }

  // Every directory but the root named exactly once, the root by nobody, and every directory reachable.
  ghost predicate IsTree(t: Tree) {
    && Shaped(t)
    && (forall p: nat, e: nat :: !Named(t, p, e, 0))
    && (forall p: nat, e: nat, p': nat, e': nat, c: nat ::
          c < DirCount(t) && Named(t, p, e, c) && Named(t, p', e', c) ==> e == e')
    && (forall d: nat :: d < DirCount(t) ==> Reachable(t, d))
  }

  ghost predicate WellFormed(t: Tree): (r: bool)
    ensures r ==> Walkable(t)
  {
    && IsTree(t) && ValidNames(t) && SortedNames(t)
    && assert Walkable(t) by { TreeIsWalkable(t); } true
  }

  // ---------------------------------------------------------------- descent

  // Every descent from a directory the root reaches goes down in rank.
  ghost predicate Ranked(t: Tree, rank: seq<nat>) {
    && |rank| == |t.kinds|
    && forall p: nat, e: nat, c: nat :: Reachable(t, p) && Descends(t, p, e, c) ==> rank[c] < rank[p]
  }

  // No descent from the root goes on for ever, whatever else the table holds.
  ghost predicate Walkable(t: Tree) {
    exists rank: seq<nat> :: Ranked(t, rank)
  }

  // How far below directory d the table can still go.
  ghost function Height(t: Tree, d: nat): nat
    requires Walkable(t)
  {
    var rank: seq<nat> :| Ranked(t, rank);
    if d < |rank| then rank[d] else 0
  }

  lemma DescentFalls(t: Tree, p: nat, e: nat, c: nat)
    requires Walkable(t) && Reachable(t, p) && Descends(t, p, e, c)
    ensures Reachable(t, c) && Height(t, c) < Height(t, p)
  {
    var n: nat :| ReachedIn(t, p, n);
    assert ReachedIn(t, c, n + 1);
  }

  lemma HeightFalls(t: Tree, p: nat, e: nat, c: nat)
    requires Shaped(t) && Walkable(t) && Reachable(t, p) && Named(t, p, e, c) && c < DirCount(t)
    ensures Reachable(t, c) && Height(t, c) < Height(t, p)
  {
    DescendsIffNamed(t, p, e, c);
    DescentFalls(t, p, e, c);
  }

  // ------------------------------------------------------------------ depth

  lemma OneOwner(t: Tree, p: nat, p': nat, e: nat)
    requires Shaped(t) && InRange(t, p, e) && InRange(t, p', e)
    ensures p == p'
  {
  }

  lemma {:induction false} DepthUnique(t: Tree, d: nat, n: nat, m: nat)
    requires IsTree(t) && d < DirCount(t) && ReachedIn(t, d, n) && ReachedIn(t, d, m)
    ensures n == m
    decreases n
  {
    hide Descends, EntryRange, IsDirectory;
    if n > 0 || m > 0 {
      var p: nat, e: nat := ReachedBy(t, d, if n > 0 then n else m);
      if n > 0 && m > 0 {
        var p': nat, e': nat := ReachedBy(t, d, m);
        OneOwner(t, p, p', e);
        DepthUnique(t, p, n - 1, m - 1);
      }
    }
  }

  lemma ReachedBy(t: Tree, d: nat, n: nat) returns (p: nat, e: nat)
    requires Shaped(t) && n > 0 && ReachedIn(t, d, n)
    ensures Named(t, p, e, d) && d < DirCount(t) && ReachedIn(t, p, n - 1)
  {
    var q: nat, f: nat :| Descends(t, q, f, d) && ReachedIn(t, q, n - 1);
    DescendsIffNamed(t, q, f, d);
    p, e := q, f;
  }

  ghost function Depth(t: Tree, d: nat): (n: nat)
    requires IsTree(t) && d < DirCount(t)
    ensures ReachedIn(t, d, n)
  {
    assert Reachable(t, d);
    var n: nat :| ReachedIn(t, d, n);
    n
  }

  lemma DepthOfChild(t: Tree, p: nat, e: nat, c: nat)
    requires IsTree(t) && Named(t, p, e, c) && c < DirCount(t)
    ensures Depth(t, c) == Depth(t, p) + 1
  {
    DescendsIffNamed(t, p, e, c);
    assert ReachedIn(t, c, Depth(t, p) + 1);
    DepthUnique(t, c, Depth(t, c), Depth(t, p) + 1);
  }

  ghost function MaxDepth(t: Tree, n: nat): (m: nat)
    requires IsTree(t) && n <= DirCount(t)
    ensures forall d: nat :: d < n ==> Depth(t, d) <= m
  {
    if n == 0 then 0 else Max(MaxDepth(t, n - 1), Depth(t, n - 1))
  }

  // In a tree the distance from the deepest level ranks the directories.
  lemma TreeIsWalkable(t: Tree)
    requires IsTree(t)
    ensures Walkable(t)
  {
    var deepest: nat := MaxDepth(t, DirCount(t));
    var rank := seq<nat>(|t.kinds|, d requires 0 <= d =>
      if d < DirCount(t) then deepest - Depth(t, d) else 0);
    forall p: nat, e: nat, c: nat | Reachable(t, p) && Descends(t, p, e, c) ensures rank[c] < rank[p] {
      DescendsIffNamed(t, p, e, c);
      DepthOfChild(t, p, e, c);
    }
    assert Ranked(t, rank);
  }

  // ---------------------------------------------------------- specifications

  // Entry of directory d carrying `name`, looking from `lo` on.
  ghost function FindName(t: Tree, d: nat, lo: nat, name: Bytes): Option<nat>
    requires Shaped(t) && d < DirCount(t) && First(t, d) <= lo <= First(t, d + 1)
    decreases First(t, d + 1) - lo
  {
    if lo == First(t, d + 1) then None
    else if NameIn(t, d, lo) == name then Some(lo)
    else FindName(t, d, lo + 1, name)
  }

  // The inode a list of components leads to from inode d.
  ghost function Resolve(t: Tree, d: nat, comps: seq<Bytes>): Option<nat>
    requires Shaped(t)
    decreases |comps|
  {
    if comps == [] then Some(d)
    else if d >= DirCount(t) then None
    else
      assert First(t, d) <= First(t, d + 1);
      match FindName(t, d, First(t, d), comps[0])
      case None => None
      case Some(e) =>
        FindNameSound(t, d, First(t, d), comps[0]);
        RangeSound(t, d, e);
        Resolve(t, t.entries[e].inode, comps[1..])
  }

  lemma {:induction false} FindNameSound(t: Tree, d: nat, lo: nat, name: Bytes)
    requires Shaped(t) && d < DirCount(t) && First(t, d) <= lo <= First(t, d + 1)
    ensures var r := FindName(t, d, lo, name);
            && (r.Some? ==> lo <= r.value && InRange(t, d, r.value) && NameIn(t, d, r.value) == name)
            && (r.None? ==> forall e: nat :: lo <= e && InRange(t, d, e) ==> NameIn(t, d, e) != name)
    decreases First(t, d + 1) - lo
  {
    if lo != First(t, d + 1) && NameIn(t, d, lo) != name {
      FindNameSound(t, d, lo + 1, name);
    }
  }

  // Walking can start at directory d.
  ghost predicate CanWalk(t: Tree, d: nat) {
    Shaped(t) && Walkable(t) && d < DirCount(t) && Reachable(t, d)
  }

  // What walking directory d from entry `lo` on yields, in order.
  ghost function WalkFrom(t: Tree, d: nat, prefix: Bytes, lo: nat): seq<WalkEntry>
    requires CanWalk(t, d) && First(t, d) <= lo <= First(t, d + 1)
    decreases Height(t, d), First(t, d + 1) - lo
  {
    if lo == First(t, d + 1) then []
    else
      var path := ChildPath(t, d, prefix, lo);
      var c := t.entries[lo].inode;
      [WalkEntry(path, c, t.kinds[c])] + SubWalk(t, d, prefix, lo) + WalkFrom(t, d, prefix, lo + 1)
  }

  ghost function SubWalk(t: Tree, d: nat, prefix: Bytes, e: nat): seq<WalkEntry>
    requires CanWalk(t, d) && InRange(t, d, e)
    decreases Height(t, d), First(t, d + 1) - e, 0
  {
    RangeSound(t, d, e);
    var c := t.entries[e].inode;
    if c < DirCount(t) then
      HeightFalls(t, d, e, c);
      assert First(t, c) <= First(t, c + 1);
      WalkFrom(t, c, ChildPath(t, d, prefix, e), First(t, c))
    else []
  }

  ghost function ChildPath(t: Tree, d: nat, prefix: Bytes, e: nat): Bytes
    requires Shaped(t) && InRange(t, d, e)
    ensures e < |t.entries| && t.entries[e].inode < |t.kinds|
  {
    RangeSound(t, d, e);
    prefix + [SLASH] + NameIn(t, d, e)
  }

  lemma RootIsReached(t: Tree)
    ensures Reachable(t, 0)
  {
    assert ReachedIn(t, 0, 0);
  }

  ghost function WalkSpec(t: Tree): seq<WalkEntry>
    requires Shaped(t) && Walkable(t)
  {
    RootIsReached(t);
    assert First(t, 0) <= First(t, 1);
    [WalkEntry([], 0, Directory)] + WalkFrom(t, 0, [], First(t, 0))
  }
}
