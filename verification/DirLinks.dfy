/**
 Packed directory tables: the firstEntry column is stored as differences, and the
 parent and self links are left out and rebuilt in two passes over the entries.
 */
module DirLinks {
  import opened Common
  import opened InodeTable
  import opened DirTree
  import opened DirWalk
  import opened DirOrder

  const WRAP: nat := 0x1_0000_0000

  // ------------------------------------------------------- first-entry column

  // Running sums of the stored column, wrapping at 32 bits.
  function RunningSum(dirs: seq<DirRecord>, n: nat): (r: u32)
    requires n <= |dirs|
  {
    if n == 0 then 0 else WrappingAdd(RunningSum(dirs, n - 1), dirs[n - 1].firstEntry)
  }

  function WrappingAdd(a: u32, b: u32): (r: u32) {
    (a + b) % WRAP
  }

  function Unpacked(dirs: seq<DirRecord>): (r: seq<DirRecord>)
    ensures |r| == |dirs|
  {
    if dirs == [] then []
    else
      var n := |dirs| - 1;
      Unpacked(dirs[..n]) + [dirs[n].(firstEntry := RunningSum(dirs, n + 1))]
  }

  lemma {:induction false} RunningSumPrefix(dirs: seq<DirRecord>, m: nat, n: nat)
    requires n <= m <= |dirs|
    ensures RunningSum(dirs[..m], n) == RunningSum(dirs, n)
  {
    if n > 0 {
      RunningSumPrefix(dirs, m, n - 1);
    }
  }

  lemma UnpackedNext(dirs: seq<DirRecord>, n: nat)
    requires n < |dirs|
    ensures Unpacked(dirs[..n + 1]) == Unpacked(dirs[..n]) + [dirs[n].(firstEntry := RunningSum(dirs, n + 1))]
  {
    assert dirs[..n + 1][..n] == dirs[..n];
    RunningSumPrefix(dirs, n + 1, n + 1);
  }

  method UnpackFirstEntries(dirs: array<DirRecord>)
    modifies dirs
    ensures dirs[..] == Unpacked(old(dirs[..]))
  {
    ghost var was := dirs[..];
    var acc: u32 := 0;
    var i: nat := 0;
    while i < dirs.Length
      invariant i <= dirs.Length && acc == RunningSum(was, i)
      invariant dirs[..i] == Unpacked(was[..i]) && dirs[i..] == was[i..]
    {
      UnpackedNext(was, i);
      assert dirs[i] == dirs[i..][0] == was[i];
      acc := WrappingAdd(acc, dirs[i].firstEntry);
      dirs[i] := dirs[i].(firstEntry := acc);
      assert dirs[..i + 1] == dirs[..i] + [dirs[i]];
      assert dirs[i + 1..] == was[i..][1..];
      i := i + 1;
    }
    assert dirs[..] == dirs[..i] && was[..i] == was;
  }

  lemma {:induction false} UnpackedAt(dirs: seq<DirRecord>, d: nat)
    requires d < |dirs|
    ensures Unpacked(dirs)[d] == dirs[d].(firstEntry := RunningSum(dirs, d + 1))
  {
    var n := |dirs| - 1;
    if d < n {
      UnpackedAt(dirs[..n], d);
      RunningSumPrefix(dirs, n, d + 1);
    }
  }

  // What the writer stores for a column: each entry less the one before it.
  function Delta(firsts: seq<u32>, d: nat): (r: u32)
    requires d < |firsts|
  {
    if d == 0 then firsts[0] else (firsts[d] - firsts[d - 1] + WRAP) % WRAP
  }

  // Unpacking the stored differences gives back any column at all, wrapping included.
  lemma {:induction false} RunningSumInverts(dirs: seq<DirRecord>, firsts: seq<u32>, n: nat)
    requires |dirs| == |firsts| && 0 < n <= |dirs|
    requires forall d: nat :: d < |dirs| ==> dirs[d].firstEntry == Delta(firsts, d)
    ensures RunningSum(dirs, n) == firsts[n - 1]
  {
    if n == 1 {
      assert RunningSum(dirs, 0) == 0;
    } else {
      RunningSumInverts(dirs, firsts, n - 1);
      AddDelta(firsts[n - 2], firsts[n - 1]);
    }
  }

  lemma AddDelta(a: u32, b: u32)
    ensures (a + (b - a + WRAP) % WRAP) % WRAP == b
  {
  }

  lemma UnpackInvertsDeltas(dirs: seq<DirRecord>, firsts: seq<u32>, d: nat)
    requires |dirs| == |firsts| && d < |dirs|
    requires forall i: nat :: i < |dirs| ==> dirs[i].firstEntry == Delta(firsts, i)
    ensures Unpacked(dirs)[d] == dirs[d].(firstEntry := firsts[d])
  {
    UnpackedAt(dirs, d);
    RunningSumInverts(dirs, firsts, d + 1);
  }

  // -------------------------------------------------------------------- links

  // A tree whose entry 0, outside every directory, names the root.
  ghost predicate Rooted(t: Tree) {
    && IsTree(t)
    && First(t, 0) > 0 && |t.entries| > 0 && t.entries[0].inode == 0
    && t.dirs[0].parentEntry == 0
  }

  // The link columns every directory should have.
  ghost function SelfOf(t: Tree, d: nat): (e: u32)
    requires Rooted(t) && d < DirCount(t)
    ensures e < |t.entries|
  {
    assert First(t, DirCount(t)) == |t.entries|;
    if d == 0 then 0 else Namer(t, d)
  }

  ghost function ParentOf(t: Tree, d: nat): nat
    requires Rooted(t) && d < DirCount(t)
  {
    if d == 0 then 0 else Owner(t, Namer(t, d))
  }

  // The table with every link right, and everything else as it was.
  ghost function Relinked(t: Tree): (r: seq<DirRecord>)
    requires Rooted(t)
  {
    seq(|t.dirs|, d requires 0 <= d < |t.dirs| => if d < DirCount(t) then LinkedRecord(t, d) else t.dirs[d])
  }

  ghost function LinkedRecord(t: Tree, d: nat): DirRecord
    requires Rooted(t) && d < DirCount(t)
  {
    DirRecord(if d == 0 then 0 else SelfOf(t, ParentOf(t, d)), First(t, d), SelfOf(t, d))
  }

  // The links as far as entries before `e` reveal them.
  ghost predicate SelfSoFar(t: Tree, self: seq<nat>, e: nat)
    requires Rooted(t)
  {
    && |self| == DirCount(t) && self[0] == 0
    && forall c: nat :: 0 < c < DirCount(t) ==> self[c] == if Namer(t, c) < e then Namer(t, c) else 0
  }

  ghost predicate ParentsSoFar(t: Tree, dirs: seq<DirRecord>, e: nat)
    requires Rooted(t)
  {
    && |dirs| == |t.dirs| && dirs[0] == t.dirs[0] && dirs[DirCount(t)] == t.dirs[DirCount(t)]
    && forall c: nat :: 0 < c < DirCount(t) ==>
         dirs[c]
         == t.dirs[c].(parentEntry :=
                         if Namer(t, c) < e then SelfOf(t, ParentOf(t, c)) else t.dirs[c].parentEntry)
  }

  lemma SelfStep(t: Tree, self: seq<nat>, d: nat, e: nat)
    requires Rooted(t) && InRange(t, d, e) && SelfSoFar(t, self, e)
    ensures EntrySound(t, e)
    ensures var c := t.entries[e].inode;
            if 0 < c < DirCount(t) then self[c] == 0 && SelfSoFar(t, self[c := e], e + 1)
            else SelfSoFar(t, self, e + 1)
  {
    RangeSound(t, d, e);
    var c := t.entries[e].inode;
    forall x: nat | 0 < x < DirCount(t) && Namer(t, x) == e ensures x == c {
    }
    if 0 < c < DirCount(t) {
      NamerIs(t, d, e, c);
    }
  }

  lemma ParentStep(t: Tree, dirs: seq<DirRecord>, d: nat, e: nat)
    requires Rooted(t) && InRange(t, d, e) && ParentsSoFar(t, dirs, e)
    ensures EntrySound(t, e)
    ensures var c := t.entries[e].inode;
            if 0 < c < DirCount(t) then
              ParentsSoFar(t, dirs[c := dirs[c].(parentEntry := SelfOf(t, d))], e + 1)
            else ParentsSoFar(t, dirs, e + 1)
  {
    RangeSound(t, d, e);
    var c := t.entries[e].inode;
    forall x: nat | 0 < x < DirCount(t) && Namer(t, x) == e ensures x == c {
    }
    if 0 < c < DirCount(t) {
      NamerIs(t, d, e, c);
      OwnerIs(t, d, e);
    }
  }

  // Entries of directory d, where the table bounds them within the entry table.
  function LinkRange(dirs: seq<DirRecord>, entries: seq<DirEntry>, d: nat): Option<(nat, nat)>
    requires d + 1 < |dirs|
  {
    var begin, end := dirs[d].firstEntry, dirs[d + 1].firstEntry;
    if begin <= end <= |entries| then Some((begin, end)) else None
  }

  // First pass: the entry naming each directory, first one found.
  method FindNamers(dirs: seq<DirRecord>, entries: seq<DirEntry>, ghost t: Tree) returns (self: seq<nat>)
    requires |dirs| > 0
    requires t.dirs == dirs && t.entries == entries
    ensures |self| == |dirs| - 1
    ensures Rooted(t) ==> SelfSoFar(t, self, |entries|)
  {
    var count := |dirs| - 1;
    self := seq<nat>(count, _ => 0);
    ghost var good := Rooted(t);
    ghost var at: nat := if good then First(t, 0) else 0;
    if good {
      StartsEmpty(t, self);
    }
    var d: nat := 0;
    while d < count
      invariant d <= count && |self| == count
      invariant good ==> at == First(t, d) && SelfSoFar(t, self, at)
    {
      if good {
        BoundsOf(t, d);
      }
      var range := LinkRange(dirs, entries, d);
      if range.Some? {
        var e: nat := range.value.0;
        while e < range.value.1
          invariant range.value.0 <= e <= range.value.1 && |self| == count
          invariant good ==> at == e && SelfSoFar(t, self, at)
        {
          if good {
            SelfStep(t, self, d, e);
          }
          var child := entries[e].inode;
          if child < count && child != 0 && self[child] == 0 {
            self := self[child := e];
          }
          e := e + 1;
          at := at + 1;
        }
      }
      d := d + 1;
    }
  }

  lemma StartsEmpty(t: Tree, self: seq<nat>)
    requires Rooted(t) && |self| == DirCount(t) && forall i :: 0 <= i < |self| ==> self[i] == 0
    ensures SelfSoFar(t, self, First(t, 0))
  {
    forall c: nat | 0 < c < DirCount(t) ensures Namer(t, c) >= First(t, 0) {
    }
  }

  lemma BoundsOf(t: Tree, d: nat)
    requires Shaped(t) && d < DirCount(t)
    ensures LinkRange(t.dirs, t.entries, d) == Some((First(t, d), First(t, d + 1)))
  {
    assert First(t, d) <= First(t, d + 1) <= First(t, DirCount(t));
  }

  // What visiting one entry of directory d does to the table.
  function Linked(dirs: seq<DirRecord>, child: nat, self: seq<nat>, d: nat): seq<DirRecord>
    requires d < |self| <= |dirs|
  {
    if child < |self| && child != 0 then dirs[child := dirs[child].(parentEntry := CapU32(self[d]))] else dirs
  }

  method LinkEntry(dirs: array<DirRecord>, child: nat, self: seq<nat>, d: nat)
    requires d < |self| <= dirs.Length
    modifies dirs
    ensures dirs[..] == Linked(old(dirs[..]), child, self, d)
  {
    if child < |self| && child != 0 {
      dirs[child] := dirs[child].(parentEntry := CapU32(self[d]));
    }
  }

  lemma ChildStep(t: Tree, dirs: seq<DirRecord>, self: seq<nat>, d: nat, e: nat)
    requires Rooted(t) && InRange(t, d, e) && ParentsSoFar(t, dirs, e) && SelfSoFar(t, self, |t.entries|)
    ensures e < |t.entries| && ParentsSoFar(t, Linked(dirs, t.entries[e].inode, self, d), e + 1)
  {
    ParentStep(t, dirs, d, e);
    SelfFound(t, self, d);
  }

  // Second pass, one directory: its entry is the parent entry of every directory it names.
  method LinkChildren(dirs: array<DirRecord>, entries: seq<DirEntry>, self: seq<nat>, d: nat, ghost t: Tree)
    requires t.entries == entries && |t.dirs| == dirs.Length && |self| == dirs.Length - 1 && d < |self|
    requires Rooted(t) ==> SelfSoFar(t, self, |entries|) && ParentsSoFar(t, dirs[..], First(t, d))
    modifies dirs
    ensures Rooted(t) ==> ParentsSoFar(t, dirs[..], First(t, d + 1))
  {
    ghost var good := Rooted(t);
    if good {
      BoundsOf(t, d);
      SameBounds(t, dirs[..], First(t, d), d);
      SelfFound(t, self, d);
    }
    var range := LinkRange(dirs[..], entries, d);
    if range.None? {
      return;
    }
    var e: nat := range.value.0;
    while e < range.value.1
      invariant range.value.0 <= e <= range.value.1
      invariant good ==> ParentsSoFar(t, dirs[..], e)
    {
      if good {
        ChildStep(t, dirs[..], self, d, e);
      }
      LinkEntry(dirs, entries[e].inode, self, d);
      e := e + 1;
    }
  }

  // Both passes and the copy back. On a rooted well-formed tree every directory gets
  // the entry that names it and its parent's, and nothing else changes.
  method RebuildLinks(dirs: array<DirRecord>, entries: seq<DirEntry>, ghost t: Tree)
    requires t.dirs == dirs[..] && t.entries == entries
    modifies dirs
    ensures Rooted(t) ==> dirs[..] == Relinked(t)
  {
    if dirs.Length == 0 {
      return;
    }
    var self := FindNamers(dirs[..], entries, t);
    if Rooted(t) {
      NothingLinkedYet(t);
    }
    var d: nat := 0;
    while d < |self|
      invariant d <= |self|
      invariant Rooted(t) ==> ParentsSoFar(t, dirs[..], First(t, d))
    {
      LinkChildren(dirs, entries, self, d, t);
      d := d + 1;
    }
    ghost var before := dirs[..];
    CopySelfEntries(dirs, self);
    if Rooted(t) {
      AllLinked(t, before, self, dirs[..]);
    }
  }

  lemma NothingLinkedYet(t: Tree)
    requires Rooted(t)
    ensures ParentsSoFar(t, t.dirs, First(t, 0))
  {
    forall c: nat | 0 < c < DirCount(t) ensures Namer(t, c) >= First(t, 0) {
    }
  }

  lemma SameBounds(t: Tree, dirs: seq<DirRecord>, at: nat, d: nat)
    requires Rooted(t) && ParentsSoFar(t, dirs, at) && d < DirCount(t)
    ensures LinkRange(dirs, t.entries, d) == LinkRange(t.dirs, t.entries, d)
  {
  }

  lemma SelfFound(t: Tree, self: seq<nat>, d: nat)
    requires Rooted(t) && SelfSoFar(t, self, |t.entries|) && d < DirCount(t)
    ensures self[d] == SelfOf(t, d)
  {
  }

  lemma AllLinked(t: Tree, dirs: seq<DirRecord>, self: seq<nat>, done: seq<DirRecord>)
    requires Rooted(t) && ParentsSoFar(t, dirs, |t.entries|) && SelfSoFar(t, self, |t.entries|)
    requires |done| == |dirs|
    requires forall d: nat :: d < |self| ==> done[d] == dirs[d].(selfEntry := CapU32(self[d]))
    requires forall d: nat :: |self| <= d < |dirs| ==> done[d] == dirs[d]
    ensures done == Relinked(t)
  {
    forall d: nat | d < |done| ensures done[d] == Relinked(t)[d] {
      if d < DirCount(t) {
        SelfFound(t, self, d);
      }
    }
  }

  // An index stored in 32 bits.
  function CapU32(n: nat): (r: u32)
    ensures n <= U32_MAX ==> r == n
  {
    n % WRAP
  }

  method CopySelfEntries(dirs: array<DirRecord>, self: seq<nat>)
    requires |self| <= dirs.Length
    modifies dirs
    ensures forall d: nat :: d < |self| ==> dirs[d] == old(dirs[d]).(selfEntry := CapU32(self[d]))
    ensures forall d: nat :: |self| <= d < dirs.Length ==> dirs[d] == old(dirs[d])
  {
    var d: nat := 0;
    while d < |self|
      invariant d <= |self|
      invariant forall i: nat :: i < d ==> dirs[i] == old(dirs[i]).(selfEntry := CapU32(self[i]))
      invariant forall i: nat :: d <= i < dirs.Length ==> dirs[i] == old(dirs[i])
    {
      dirs[d] := dirs[d].(selfEntry := CapU32(self[d]));
      d := d + 1;
    }
  }

  // ------------------------------------------------------------ the accessor

  // The parent of a directory inode, by way of the entry its parent link points at.
  function Parent(kinds: seq<InodeKind>, dirs: seq<DirRecord>, entries: seq<DirEntry>, inode: nat): Option<nat> {
    if inode >= |kinds| || kinds[inode] != Directory then None
    else if inode >= |dirs| || dirs[inode].parentEntry >= |entries| then None
    else Some(entries[dirs[inode].parentEntry].inode)
  }

  // With the links rebuilt, the parent of a directory is the one whose entries name it,
  // and the root is its own.
  lemma RebuiltParentIsOwner(t: Tree, d: nat)
    requires Rooted(t) && d < DirCount(t)
    ensures Parent(t.kinds, Relinked(t), t.entries, d) == Some(ParentOf(t, d))
    ensures d > 0 ==> exists e: nat :: Named(t, ParentOf(t, d), e, d)
    ensures d == 0 ==> ParentOf(t, d) == 0
  {
    if d > 0 {
      var e := Namer(t, d);
      assert Named(t, ParentOf(t, d), e, d);
      var p := ParentOf(t, d);
      if p > 0 {
        assert t.entries[Namer(t, p)].inode == p;
      }
    }
  }

  // --------------------------------------------------- packing and unpacking

  function FirstColumn(dirs: seq<DirRecord>): seq<u32> {
    seq(|dirs|, d requires 0 <= d < |dirs| => dirs[d].firstEntry)
  }

  // What a packed table stores: differences, and no links.
  function Packed(dirs: seq<DirRecord>): seq<DirRecord> {
    seq(|dirs|, d requires 0 <= d < |dirs| => DirRecord(0, Delta(FirstColumn(dirs), d), 0))
  }

  function Unlinked(dirs: seq<DirRecord>): seq<DirRecord> {
    seq(|dirs|, d requires 0 <= d < |dirs| => DirRecord(0, dirs[d].firstEntry, 0))
  }

  // Every link is the right one; the closing record has none.
  ghost predicate LinksRight(t: Tree) {
    && Rooted(t)
    && (forall d: nat :: d < DirCount(t) ==> t.dirs[d] == LinkedRecord(t, d))
    && t.dirs[DirCount(t)] == DirRecord(0, First(t, DirCount(t)), 0)
  }

  lemma UnpackedIsUnlinked(dirs: seq<DirRecord>)
    ensures Unpacked(Packed(dirs)) == Unlinked(dirs)
  {
    forall d: nat | d < |dirs| ensures Unpacked(Packed(dirs))[d] == Unlinked(dirs)[d] {
      UnpackInvertsDeltas(Packed(dirs), FirstColumn(dirs), d);
    }
  }

  // The links play no part in what the table is a tree of.
  ghost predicate SameShape(t: Tree, u: Tree) {
    && t.kinds == u.kinds && t.entries == u.entries && t.names == u.names
    && |t.dirs| == |u.dirs| && forall d: nat :: d < |t.dirs| ==> First(t, d) == First(u, d)
  }

  lemma SameRange(t: Tree, u: Tree, d: nat)
    requires SameShape(t, u)
    ensures EntryRange(t, d) == EntryRange(u, d)
  {
    if d < |t.dirs| {
      assert First(t, d) == First(u, d);
      if d + 1 < |t.dirs| {
        assert First(t, d + 1) == First(u, d + 1);
      }
    }
  }

  lemma SameDescent(t: Tree, u: Tree, p: nat, e: nat, c: nat)
    requires SameShape(t, u) && Descends(t, p, e, c)
    ensures Descends(u, p, e, c)
  {
    SameRange(t, u, p);
    hide EntryRange;
  }

  lemma {:induction false} SameReach(t: Tree, u: Tree, d: nat, n: nat)
    requires SameShape(t, u) && ReachedIn(t, d, n)
    ensures ReachedIn(u, d, n)
    decreases n
  {
    if n > 0 {
      var p: nat, e: nat :| Descends(t, p, e, d) && ReachedIn(t, p, n - 1);
      SameReach(t, u, p, n - 1);
      SameDescent(t, u, p, e, d);
    }
  }

  lemma SameShaped(t: Tree, u: Tree)
    requires SameShape(t, u) && Shaped(t)
    ensures Shaped(u)
  {
    forall d: nat, d': nat | d <= d' < |u.dirs| ensures First(u, d) <= First(u, d') {
      assert First(t, d) <= First(t, d');
    }
    assert First(t, 0) == First(u, 0) && First(t, DirCount(t)) == First(u, DirCount(u));
    forall e: nat | First(u, 0) <= e < |u.entries| ensures EntrySound(u, e) {
      assert EntrySound(t, e);
    }
  }

  lemma SameTree(t: Tree, u: Tree)
    requires SameShape(t, u) && IsTree(t)
    ensures IsTree(u)
  {
    SameShaped(t, u);
    forall p: nat, e: nat ensures !Named(u, p, e, 0) {
      assert !Named(t, p, e, 0);
    }
    forall p: nat, e: nat, p': nat, e': nat, c: nat | c < DirCount(u) && Named(u, p, e, c) && Named(u, p', e', c)
      ensures e == e'
    {
      assert Named(t, p, e, c) && Named(t, p', e', c);
    }
    forall d: nat | d < DirCount(u) ensures Reachable(u, d) {
      assert Reachable(t, d);
      var n: nat :| ReachedIn(t, d, n);
      SameReach(t, u, d, n);
    }
  }

  lemma SameNamer(t: Tree, u: Tree, d: nat)
    requires SameShape(t, u) && IsTree(t) && IsTree(u) && 0 < d < DirCount(t)
    ensures Namer(t, d) == Namer(u, d) && Owner(t, Namer(t, d)) == Owner(u, Namer(u, d)) < DirCount(t)
  {
    var n := Namer(u, d);
    var p := Owner(u, n);
    assert Named(t, p, n, d);
    NamerIs(t, p, n, d);
    OwnerIs(t, p, n);
  }

  lemma SameLinks(t: Tree, u: Tree, d: nat)
    requires SameShape(t, u) && Rooted(t) && Rooted(u) && d < DirCount(t)
    ensures LinkedRecord(t, d) == LinkedRecord(u, d)
  {
    if d > 0 {
      SameNamer(t, u, d);
      if ParentOf(t, d) > 0 {
        SameNamer(t, u, ParentOf(t, d));
      }
    }
  }

  // Unpacking the stored differences and rebuilding the links gives back the table that was packed.
  lemma UnpackInvertsPacking(t: Tree)
    requires LinksRight(t)
    ensures var u := t.(dirs := Unpacked(Packed(t.dirs)));
            Rooted(u) && Relinked(u) == t.dirs
  {
    UnpackedIsUnlinked(t.dirs);
    var u := t.(dirs := Unlinked(t.dirs));
    UnlinkedIsRooted(t);
    RelinkedIsBack(t, u);
  }

  lemma UnlinkedIsRooted(t: Tree)
    requires Rooted(t)
    ensures var u := t.(dirs := Unlinked(t.dirs));
            SameShape(t, u) && Rooted(u)
  {
    SameTree(t, t.(dirs := Unlinked(t.dirs)));
  }

  lemma RelinkedIsBack(t: Tree, u: Tree)
    requires LinksRight(t) && SameShape(t, u) && Rooted(u) && u.dirs == Unlinked(t.dirs)
    ensures Relinked(u) == t.dirs
  {
    hide IsTree, LinkedRecord;
    assert DirCount(u) == DirCount(t);
    forall d: nat | d < |t.dirs| ensures Relinked(u)[d] == t.dirs[d] {
      if d < DirCount(t) {
        SameLinks(t, u, d);
      }
    }
  }

  // What opening an image does to a packed directory table.
  method UnpackDirectories(dirs: array<DirRecord>, entries: seq<DirEntry>, ghost t: Tree)
    requires t.entries == entries && dirs[..] == Packed(t.dirs)
    modifies dirs
    ensures LinksRight(t) ==> dirs[..] == t.dirs
  {
    UnpackFirstEntries(dirs);
    ghost var u := t.(dirs := dirs[..]);
    RebuildLinks(dirs, entries, u);
    if LinksRight(t) {
      UnpackInvertsPacking(t);
    }
  }
}
