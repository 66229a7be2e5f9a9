/** The walk visits every directory entry exactly once, and parents before children. */
module DirOrder {
  import opened Common
  import opened InodeTable
  import opened DirTree
  import opened DirAccess
  import opened DirWalk

  // The entry each walked element comes from, in walk order.
  ghost function IndicesFrom(t: Tree, d: nat, lo: nat): seq<nat>
    requires WellFormed(t) && d < DirCount(t) && First(t, d) <= lo <= First(t, d + 1)
    decreases Height(t, d), First(t, d + 1) - lo
  {
    if lo == First(t, d + 1) then [] else [lo] + IndicesBelow(t, d, lo) + IndicesFrom(t, d, lo + 1)
  }

  ghost function IndicesBelow(t: Tree, d: nat, e: nat): seq<nat>
    requires WellFormed(t) && InRange(t, d, e)
    decreases Height(t, d), First(t, d + 1) - e, 0
  {
    var c := ChildOf(t, d, e);
    RangeSound(t, d, e);
    if c < DirCount(t) then
      HeightFalls(t, d, e, c);
      assert First(t, c) <= First(t, c + 1);
      IndicesFrom(t, c, First(t, c))
    else []
  }

  // --------------------------------------------------------------- ancestry

  predicate Live(t: Tree, e: nat) {
    |t.dirs| > 0 && First(t, 0) <= e < |t.entries|
  }

  lemma {:induction false} OwnerExists(t: Tree, e: nat, d: nat)
    requires Shaped(t) && Live(t, e) && d < DirCount(t) && e < First(t, d + 1)
    ensures exists p: nat :: InRange(t, p, e)
    decreases d
  {
    if First(t, d) <= e {
      assert InRange(t, d, e);
    } else {
      OwnerExists(t, e, d - 1);
    }
  }

  // The directory whose stretch holds entry e.
  ghost function Owner(t: Tree, e: nat): (p: nat)
    requires Shaped(t) && Live(t, e)
    ensures InRange(t, p, e)
  {
    OwnerExists(t, e, DirCount(t) - 1);
    var p: nat :| InRange(t, p, e);
    p
  }

  lemma OwnerIs(t: Tree, p: nat, e: nat)
    requires Shaped(t) && InRange(t, p, e)
    ensures Live(t, e) && Owner(t, e) == p
  {
    RangeSound(t, p, e);
    assert First(t, 0) <= First(t, p);
    OneOwner(t, p, Owner(t, e), e);
  }

  // The entry naming a directory other than the root.
  ghost function Namer(t: Tree, d: nat): (e: nat)
    requires IsTree(t) && 0 < d < DirCount(t)
    ensures Live(t, e) && t.entries[e].inode == d && Depth(t, Owner(t, e)) == Depth(t, d) - 1
  {
    assert ReachedIn(t, d, Depth(t, d)) && Depth(t, d) > 0;
    var p: nat, e: nat :| Descends(t, p, e, d) && ReachedIn(t, p, Depth(t, d) - 1);
    DescendsIffNamed(t, p, e, d);
    OwnerIs(t, p, e);
    DepthOfChild(t, p, e, d);
    e
  }

  lemma NamerIs(t: Tree, p: nat, e: nat, c: nat)
    requires IsTree(t) && Named(t, p, e, c) && c < DirCount(t)
    ensures c > 0 && Namer(t, c) == e
  {
    assert !Named(t, p, e, 0);
    var n := Namer(t, c);
    assert Named(t, Owner(t, n), n, c);
  }

  lemma RootDepth(t: Tree)
    requires IsTree(t)
    ensures Depth(t, 0) == 0
  {
    assert ReachedIn(t, 0, 0);
    DepthUnique(t, 0, Depth(t, 0), 0);
  }

  ghost function DepthOf(t: Tree, e: nat): nat
    requires IsTree(t) && Live(t, e)
  {
    Depth(t, Owner(t, e))
  }

  // The entry at level k above entry e, or e itself if it stands no deeper.
  ghost function Above(t: Tree, e: nat, k: nat): (a: nat)
    requires IsTree(t) && Live(t, e)
    ensures Live(t, a)
    decreases DepthOf(t, e)
  {
    RootDepth(t);
    if DepthOf(t, e) <= k then e else Above(t, Namer(t, Owner(t, e)), k)
  }

  lemma {:induction false} AboveAbove(t: Tree, e: nat, m: nat, k: nat)
    requires IsTree(t) && Live(t, e) && k <= m
    ensures Above(t, Above(t, e, m), k) == Above(t, e, k)
    decreases DepthOf(t, e)
  {
    RootDepth(t);
    if DepthOf(t, e) > m {
      AboveAbove(t, Namer(t, Owner(t, e)), m, k);
    }
  }

  // Where the indices of a walk stand: at or below directory d, from entry `lo` on.
  ghost predicate Under(t: Tree, d: nat, lo: nat, e: nat)
    requires IsTree(t) && d < DirCount(t)
  {
    && Live(t, e) && DepthOf(t, e) >= Depth(t, d)
    && InRange(t, d, Above(t, e, Depth(t, d)))
    && lo <= Above(t, e, Depth(t, d))
  }

  lemma {:induction false} FromIsUnder(t: Tree, d: nat, lo: nat, e: nat)
    requires WellFormed(t) && d < DirCount(t) && First(t, d) <= lo <= First(t, d + 1)
    requires e in IndicesFrom(t, d, lo)
    ensures Under(t, d, lo, e)
    decreases Height(t, d), First(t, d + 1) - lo
  {
    if e == lo {
      OwnerIs(t, d, lo);
    } else if e in IndicesBelow(t, d, lo) {
      BelowIsUnder(t, d, lo, e);
      OwnerIs(t, d, lo);
    } else {
      FromIsUnder(t, d, lo + 1, e);
    }
  }

  // What lies below entry e has e above it.
  lemma {:induction false} BelowIsUnder(t: Tree, d: nat, at: nat, e: nat)
    requires WellFormed(t) && InRange(t, d, at)
    requires e in IndicesBelow(t, d, at)
    ensures Live(t, e) && DepthOf(t, e) > Depth(t, d) && Above(t, e, Depth(t, d)) == at
    decreases Height(t, d), First(t, d + 1) - at, 0
  {
    RangeSound(t, d, at);
    var c := ChildOf(t, d, at);
    HeightFalls(t, d, at, c);
    DepthOfChild(t, d, at, c);
    FromIsUnder(t, c, First(t, c), e);
    AboveNamer(t, d, at, c, Above(t, e, Depth(t, c)));
    AboveAbove(t, e, Depth(t, c), Depth(t, d));
  }

  // One level above an entry of directory c stands the entry naming c.
  lemma AboveNamer(t: Tree, d: nat, at: nat, c: nat, a: nat)
    requires IsTree(t) && Named(t, d, at, c) && c < DirCount(t) && InRange(t, c, a)
    ensures Live(t, a) && Above(t, a, Depth(t, d)) == at
  {
    OwnerIs(t, c, a);
    OwnerIs(t, d, at);
    DepthOfChild(t, d, at, c);
    NamerIs(t, d, at, c);
  }

  predicate Distinct(s: seq<nat>) {
    forall i, j :: 0 <= i < j < |s| ==> s[i] != s[j]
  }

  lemma DistinctConcat(a: seq<nat>, b: seq<nat>)
    requires Distinct(a) && Distinct(b) && forall x: nat :: x in a ==> x !in b
    ensures Distinct(a + b)
  {
    var s := a + b;
    forall i, j | 0 <= i < j < |s| ensures s[i] != s[j] {
      if i < |a| <= j {
        assert s[i] in a && s[j] == b[j - |a|];
      }
    }
  }

  // An entry, what lies below it and what comes after it do not meet.
  lemma ApartAt(t: Tree, d: nat, lo: nat)
    requires WellFormed(t) && InRange(t, d, lo)
    ensures lo !in IndicesBelow(t, d, lo) && lo !in IndicesFrom(t, d, lo + 1)
    ensures forall x: nat :: x in IndicesBelow(t, d, lo) ==> x !in IndicesFrom(t, d, lo + 1)
  {
    OwnerIs(t, d, lo);
    forall x: nat | x in IndicesBelow(t, d, lo) ensures x != lo && x !in IndicesFrom(t, d, lo + 1) {
      BelowIsUnder(t, d, lo, x);
      if x in IndicesFrom(t, d, lo + 1) {
        FromIsUnder(t, d, lo + 1, x);
      }
    }
    if lo in IndicesFrom(t, d, lo + 1) {
      FromIsUnder(t, d, lo + 1, lo);
    }
  }

  lemma {:induction false} IndicesDistinct(t: Tree, d: nat, lo: nat)
    requires WellFormed(t) && d < DirCount(t) && First(t, d) <= lo <= First(t, d + 1)
    ensures Distinct(IndicesFrom(t, d, lo))
    decreases Height(t, d), First(t, d + 1) - lo
  {
    hide ValidNames, SortedNames, Ranked, Walkable, ReachedIn, Descends;
    if lo < First(t, d + 1) {
      RangeSound(t, d, lo);
      var c := ChildOf(t, d, lo);
      var below, rest := IndicesBelow(t, d, lo), IndicesFrom(t, d, lo + 1);
      IndicesDistinct(t, d, lo + 1);
      if c < DirCount(t) {
        HeightFalls(t, d, lo, c);
        IndicesDistinct(t, c, First(t, c));
      }
      ApartAt(t, d, lo);
      DistinctConcat([lo], below);
      DistinctConcat([lo] + below, rest);
    }
  }

  // --------------------------------------------------------------- coverage

  // A directory's whole walk is part of any walk that passes the entry naming it.
  lemma {:induction false} BelowIsIncluded(t: Tree, d: nat, lo: nat, e: nat, x: nat)
    requires WellFormed(t) && d < DirCount(t) && First(t, d) <= lo <= First(t, d + 1)
    requires e in IndicesFrom(t, d, lo) && Live(t, e) && x in IndicesBelow(t, Owner(t, e), e)
    ensures x in IndicesFrom(t, d, lo)
    decreases Height(t, d), First(t, d + 1) - lo
  {
    RangeSound(t, d, lo);
    if e == lo {
      OwnerIs(t, d, lo);
    } else if e in IndicesBelow(t, d, lo) {
      var c := ChildOf(t, d, lo);
      HeightFalls(t, d, lo, c);
      BelowIsIncluded(t, c, First(t, c), e, x);
    } else {
      BelowIsIncluded(t, d, lo + 1, e, x);
    }
  }

  lemma {:induction false} OwnEntriesIncluded(t: Tree, d: nat, lo: nat, e: nat)
    requires WellFormed(t) && InRange(t, d, e) && First(t, d) <= lo <= e
    ensures e in IndicesFrom(t, d, lo)
    decreases e - lo
  {
    if lo < e {
      OwnEntriesIncluded(t, d, lo + 1, e);
    }
  }

  lemma {:induction false} EveryEntryIncluded(t: Tree, e: nat)
    requires WellFormed(t) && Live(t, e)
    ensures First(t, 0) <= First(t, 1) && e in IndicesFrom(t, 0, First(t, 0))
    decreases DepthOf(t, e)
  {
    var p := Owner(t, e);
    if p == 0 {
      OwnEntriesIncluded(t, 0, First(t, 0), e);
    } else {
      var n := Namer(t, p);
      EveryEntryIncluded(t, n);
      assert First(t, p) <= First(t, p + 1);
      OwnEntriesIncluded(t, p, First(t, p), e);
      assert e in IndicesBelow(t, Owner(t, n), n);
      BelowIsIncluded(t, 0, First(t, 0), n, e);
    }
  }

  // ------------------------------------------------------------ parents first

  // Element k of a walk sits directly in `d` under `prefix`, or in a directory walked before it.
  ghost predicate Placed(t: Tree, d: nat, prefix: Bytes, walk: seq<WalkEntry>, indices: seq<nat>, k: nat)
    requires WellFormed(t) && k < |walk| == |indices|
  {
    var e := indices[k];
    && Live(t, e) && EntrySound(t, e)
    && walk[k].inode == t.entries[e].inode && walk[k].kind == t.kinds[walk[k].inode]
    && ((Owner(t, e) == d && walk[k].path == prefix + [SLASH] + NameOf(t, e))
        || exists j :: 0 <= j < k && walk[j].inode == Owner(t, e)
                       && walk[k].path == walk[j].path + [SLASH] + NameOf(t, e))
  }

  ghost predicate AllPlaced(t: Tree, d: nat, prefix: Bytes, walk: seq<WalkEntry>, indices: seq<nat>)
    requires WellFormed(t)
  {
    |walk| == |indices| && forall k :: 0 <= k < |walk| ==> Placed(t, d, prefix, walk, indices, k)
  }

  lemma PlacedConcat(t: Tree, d: nat, prefix: Bytes, a: seq<WalkEntry>, ai: seq<nat>, b: seq<WalkEntry>, bi: seq<nat>)
    requires WellFormed(t) && AllPlaced(t, d, prefix, a, ai) && AllPlaced(t, d, prefix, b, bi)
    ensures AllPlaced(t, d, prefix, a + b, ai + bi)
  {
    forall k | 0 <= k < |a + b| ensures Placed(t, d, prefix, a + b, ai + bi, k) {
      if k < |a| {
        assert Placed(t, d, prefix, a, ai, k);
        var e := ai[k];
        if !(Owner(t, e) == d && a[k].path == prefix + [SLASH] + NameOf(t, e)) {
          var j :| 0 <= j < k && a[j].inode == Owner(t, e) && a[k].path == a[j].path + [SLASH] + NameOf(t, e);
          assert (a + b)[j] == a[j];
        }
      } else {
        var m := k - |a|;
        assert Placed(t, d, prefix, b, bi, m);
        var e := bi[m];
        if !(Owner(t, e) == d && b[m].path == prefix + [SLASH] + NameOf(t, e)) {
          var j :| 0 <= j < m && b[j].inode == Owner(t, e) && b[m].path == b[j].path + [SLASH] + NameOf(t, e);
          assert (a + b)[|a| + j] == b[j];
        }
      }
    }
  }

  // Below an entry, the entry itself is the directory walked before.
  lemma PlacedBelow(t: Tree, d: nat, prefix: Bytes, head: WalkEntry, at: nat, walk: seq<WalkEntry>, indices: seq<nat>)
    requires WellFormed(t) && InRange(t, d, at)
    requires head == WalkEntry(ChildPath(t, d, prefix, at), ChildOf(t, d, at), t.kinds[ChildOf(t, d, at)])
    requires AllPlaced(t, head.inode, head.path, walk, indices)
    ensures AllPlaced(t, d, prefix, [head] + walk, [at] + indices)
  {
    RangeSound(t, d, at);
    OwnerIs(t, d, at);
    var all, ai := [head] + walk, [at] + indices;
    forall k | 0 <= k < |all| ensures Placed(t, d, prefix, all, ai, k) {
      if k > 0 {
        assert Placed(t, head.inode, head.path, walk, indices, k - 1);
        var e := indices[k - 1];
        if Owner(t, e) == head.inode && walk[k - 1].path == head.path + [SLASH] + NameOf(t, e) {
          assert all[0] == head;
        } else {
          var j :| 0 <= j < k - 1 && walk[j].inode == Owner(t, e)
                   && walk[k - 1].path == walk[j].path + [SLASH] + NameOf(t, e);
          assert all[j + 1] == walk[j];
        }
      }
    }
  }

  lemma {:induction false} WalkPlaced(t: Tree, d: nat, prefix: Bytes, lo: nat)
    requires WellFormed(t) && d < DirCount(t) && First(t, d) <= lo <= First(t, d + 1)
    ensures AllPlaced(t, d, prefix, WalkFrom(t, d, prefix, lo), IndicesFrom(t, d, lo))
    decreases Height(t, d), First(t, d + 1) - lo
  {
    if lo < First(t, d + 1) {
      RangeSound(t, d, lo);
      var c := ChildOf(t, d, lo);
      var path := ChildPath(t, d, prefix, lo);
      var head := WalkEntry(path, c, t.kinds[c]);
      if c < DirCount(t) {
        HeightFalls(t, d, lo, c);
        WalkPlaced(t, c, path, First(t, c));
      }
      PlacedBelow(t, d, prefix, head, lo, SubWalk(t, d, prefix, lo), IndicesBelow(t, d, lo));
      WalkPlaced(t, d, prefix, lo + 1);
      PlacedConcat(t, d, prefix, [head] + SubWalk(t, d, prefix, lo), [lo] + IndicesBelow(t, d, lo),
                   WalkFrom(t, d, prefix, lo + 1), IndicesFrom(t, d, lo + 1));
    }
  }

  // Element k of the whole walk is entry e as the table has it, after the directory
  // that contains it, whose path its own extends by its name.
  ghost predicate Yielded(t: Tree, walk: seq<WalkEntry>, k: nat, e: nat)
    requires Shaped(t) && k < |walk|
  {
    && Live(t, e) && EntrySound(t, e)
    && walk[k].inode == t.entries[e].inode && walk[k].kind == t.kinds[walk[k].inode]
    && exists j :: 0 <= j < k && walk[j].inode == Owner(t, e) && walk[j].kind == Directory
                   && walk[k].path == walk[j].path + [SLASH] + NameOf(t, e)
  }

  // The walk is the root followed by every directory entry exactly once, each after
  // the directory that contains it.
  lemma WalkYieldsEachEntryOnce(t: Tree) returns (indices: seq<nat>)
    requires WellFormed(t)
    ensures |WalkSpec(t)| == 1 + |indices| && WalkSpec(t)[0] == WalkEntry([], 0, Directory)
    ensures Distinct(indices)
    ensures forall e: nat :: e in indices <==> Live(t, e)
    ensures forall k: nat :: k < |indices| ==> Yielded(t, WalkSpec(t), k + 1, indices[k])
  {
    assert First(t, 0) <= First(t, 1);
    indices := IndicesFrom(t, 0, First(t, 0));
    IndicesDistinct(t, 0, First(t, 0));
    WalkPlaced(t, 0, [], First(t, 0));
    forall e: nat ensures e in indices <==> Live(t, e) {
      if e in indices {
        FromIsUnder(t, 0, First(t, 0), e);
      }
      if Live(t, e) {
        EveryEntryIncluded(t, e);
      }
    }
    forall k: nat | k < |indices| ensures Yielded(t, WalkSpec(t), k + 1, indices[k]) {
      PlacedIsYielded(t, WalkFrom(t, 0, [], First(t, 0)), indices, k);
    }
  }

  lemma PlacedIsYielded(t: Tree, rest: seq<WalkEntry>, indices: seq<nat>, k: nat)
    requires WellFormed(t) && AllPlaced(t, 0, [], rest, indices) && k < |rest|
    ensures Yielded(t, [WalkEntry([], 0, Directory)] + rest, k + 1, indices[k])
  {
    var walk := [WalkEntry([], 0, Directory)] + rest;
    var e := indices[k];
    assert Placed(t, 0, [], rest, indices, k);
    if Owner(t, e) == 0 && rest[k].path == [] + [SLASH] + NameOf(t, e) {
      assert walk[0].path == [];
    } else {
      var j :| 0 <= j < k && rest[j].inode == Owner(t, e) && rest[k].path == rest[j].path + [SLASH] + NameOf(t, e);
      assert Placed(t, 0, [], rest, indices, j);
      assert walk[j + 1] == rest[j];
    }
  }

  // ------------------------------------------------------------ distinct paths

  // The last slash of a path stands before its last name.
  lemma LastSlash(p: Bytes, m: Bytes)
    requires ValidName(m)
    ensures var a := p + [SLASH] + m;
            && a[|p|] == SLASH && a[..|p|] == p && a[|p| + 1..] == m
            && forall k :: |p| < k < |a| ==> a[k] != SLASH
  {
  }

  // A path ends in one name only.
  lemma LastNameUnique(p: Bytes, m: Bytes, q: Bytes, n: Bytes)
    requires ValidName(m) && ValidName(n) && p + [SLASH] + m == q + [SLASH] + n
    ensures p == q && m == n
  {
    LastSlash(p, m);
    LastSlash(q, n);
  }

  lemma OneNamePerEntry(t: Tree, e: nat, e': nat)
    requires WellFormed(t) && Live(t, e) && Live(t, e') && EntrySound(t, e) && EntrySound(t, e')
    requires Owner(t, e) == Owner(t, e') && NameOf(t, e) == NameOf(t, e')
    ensures e == e'
  {
    var d := Owner(t, e);
    if e < e' {
      NamesRise(t, d, e, e');
      LessTotal(NameOf(t, e), NameOf(t, e));
    } else if e' < e {
      NamesRise(t, d, e', e);
      LessTotal(NameOf(t, e), NameOf(t, e));
    }
  }

  lemma {:induction false} SamePathSamePlace(t: Tree, walk: seq<WalkEntry>, indices: seq<nat>, a: nat, b: nat)
    requires WellFormed(t) && |walk| == 1 + |indices| && walk[0].path == [] && Distinct(indices)
    requires forall k: nat :: k < |indices| ==> Yielded(t, walk, k + 1, indices[k])
    requires a < |walk| && b < |walk| && walk[a].path == walk[b].path
    ensures a == b
    decreases a + b
  {
    if a > 0 {
      assert Yielded(t, walk, a, indices[a - 1]);
    }
    if b > 0 {
      assert Yielded(t, walk, b, indices[b - 1]);
    }
    if a > 0 && b > 0 {
      var e, f := indices[a - 1], indices[b - 1];
      var j :| 0 <= j < a && walk[j].inode == Owner(t, e) && walk[a].path == walk[j].path + [SLASH] + NameOf(t, e);
      var k :| 0 <= k < b && walk[k].inode == Owner(t, f) && walk[b].path == walk[k].path + [SLASH] + NameOf(t, f);
      LastNameUnique(walk[j].path, NameOf(t, e), walk[k].path, NameOf(t, f));
      SamePathSamePlace(t, walk, indices, j, k);
      OneNamePerEntry(t, e, f);
    }
  }

  // No two entries of a walk have the same path.
  lemma WalkedPathsDiffer(t: Tree)
    requires WellFormed(t)
    ensures forall a, b :: 0 <= a < b < |WalkSpec(t)| ==> WalkSpec(t)[a].path != WalkSpec(t)[b].path
  {
    var indices := WalkYieldsEachEntryOnce(t);
    var walk := WalkSpec(t);
    forall a, b | 0 <= a < b < |walk| ensures walk[a].path != walk[b].path {
      if walk[a].path == walk[b].path {
        SamePathSamePlace(t, walk, indices, a, b);
      }
    }
  }
}
