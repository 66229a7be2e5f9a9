/**
 The inode table: partitioned by kind at open, with shared files resolved
 through their group table.
 */
module InodeTable {
  import opened Common

  datatype InodeKind = Directory | Symlink | Regular | CharDevice | BlockDevice | Fifo | Socket | Unknown

  // The file-type bits of a Unix mode.
  function ModeKind(mode: u32): InodeKind {
    var bits := mode / 0x1000 % 0x10;
    if bits == 0x4 then Directory
    else if bits == 0xA then Symlink
    else if bits == 0x8 then Regular
    else if bits == 0x2 then CharDevice
    else if bits == 0x6 then BlockDevice
    else if bits == 0x1 then Fifo
    else if bits == 0xC then Socket
    else Unknown
  }

  // The type of a file is in four bits of its mode, as Unix has them, whatever the other bits are.
  lemma ModeBits(high: nat, low: nat)
    requires low < 0x1000 && high < 0x1_0000
    ensures var rest := high * 0x1_0000 + low;
            && ModeKind(rest + 0x4000) == Directory && ModeKind(rest + 0xA000) == Symlink
            && ModeKind(rest + 0x8000) == Regular && ModeKind(rest + 0x2000) == CharDevice
            && ModeKind(rest + 0x6000) == BlockDevice && ModeKind(rest + 0x1000) == Fifo
            && ModeKind(rest + 0xC000) == Socket && ModeKind(rest) == Unknown
  {
    hide ModeKind;
    TypeBits(high, low, 0x4);
    TypeBits(high, low, 0xA);
    TypeBits(high, low, 0x8);
    TypeBits(high, low, 0x2);
    TypeBits(high, low, 0x6);
    TypeBits(high, low, 0x1);
    TypeBits(high, low, 0xC);
    TypeBits(high, low, 0);
  }

  function KindNumbered(k: nat): InodeKind {
    match k
    case 1 => Fifo
    case 2 => CharDevice
    case 4 => Directory
    case 6 => BlockDevice
    case 8 => Regular
    case 10 => Symlink
    case 12 => Socket
    case _ => Unknown
  }

  lemma TypeBits(high: nat, low: nat, k: nat)
    requires low < 0x1000 && high < 0x1_0000 && k < 0x10
    ensures ModeKind(high * 0x1_0000 + low + k * 0x1000) == KindNumbered(k)
  {
    assert (high * 0x1_0000 + low + k * 0x1000) / 0x1000 == high * 0x10 + k;
  }

  datatype Offsets = Offsets(
    dirOffset: u32, symlinkOffset: u32, fileOffset: u32, sharedFileOffset: u32,
    deviceOffset: u32, specialOffset: u32, total: u32)

  // The five stretches of a table in the order the format lays them out.
  datatype Class = Dirs | Symlinks | Files | Devices | Specials | Strangers

  function ClassOf(kind: InodeKind): Class {
    match kind
    case Directory => Dirs
    case Symlink => Symlinks
    case Regular => Files
    case CharDevice | BlockDevice => Devices
    case Fifo | Socket => Specials
    case Unknown => Strangers
  }

  // Position of the first inode of a class, or the table's length when there is none.
  function FirstOf(kinds: seq<InodeKind>, c: Class): (k: nat)
    ensures k <= |kinds|
  {
    if kinds == [] || ClassOf(kinds[0]) == c then 0 else 1 + FirstOf(kinds[1..], c)
  }

  lemma {:induction false} FirstOfIsFirst(kinds: seq<InodeKind>, c: Class)
    ensures FirstOf(kinds, c) < |kinds| ==> ClassOf(kinds[FirstOf(kinds, c)]) == c
    ensures forall i :: 0 <= i < FirstOf(kinds, c) ==> ClassOf(kinds[i]) != c
  {
    if kinds != [] && ClassOf(kinds[0]) != c {
      FirstOfIsFirst(kinds[1..], c);
      assert forall i :: 0 < i < |kinds| ==> kinds[i] == kinds[1..][i - 1];
    }
  }

  lemma FirstOfUnique(kinds: seq<InodeKind>, c: Class, k: nat)
    requires k <= |kinds| && (k < |kinds| ==> ClassOf(kinds[k]) == c)
    requires forall i :: 0 <= i < k ==> ClassOf(kinds[i]) != c
    ensures FirstOf(kinds, c) == k
  {
    FirstOfIsFirst(kinds, c);
  }

  predicate ModesResolve(modeIndex: seq<u32>, modes: seq<u32>) {
    forall i :: 0 <= i < |modeIndex| ==> modeIndex[i] < |modes|
  }

  function Kinds(modeIndex: seq<u32>, modes: seq<u32>): (kinds: seq<InodeKind>)
    requires ModesResolve(modeIndex, modes)
    ensures |kinds| == |modeIndex|
  {
    seq(|modeIndex|, i requires 0 <= i < |modeIndex| => ModeKind(modes[modeIndex[i]]))
  }

  // Where a table's boundaries lie, given how many of its inodes are shared files.
  function Boundaries(kinds: seq<InodeKind>, sharedCount: nat): Offsets
    requires |kinds| <= LIST_CAP
    requires FirstOf(kinds, Files) + sharedCount <= Min(FirstOf(kinds, Devices), FirstOf(kinds, Specials))
  {
    Offsets(FirstOf(kinds, Dirs), FirstOf(kinds, Symlinks), FirstOf(kinds, Files),
            Min(FirstOf(kinds, Devices), FirstOf(kinds, Specials)) - sharedCount,
            FirstOf(kinds, Devices), FirstOf(kinds, Specials), |kinds|)
  }

  // `seen` is u32::MAX until the class turns up, then the first index it turned up at.
  ghost predicate Tracks(kinds: seq<InodeKind>, c: Class, seen: u32) {
    if seen == U32_MAX then FirstOf(kinds, c) == |kinds| else FirstOf(kinds, c) == seen < |kinds|
  }

  lemma TracksNext(kinds: seq<InodeKind>, kind: InodeKind, c: Class, seen: u32)
    requires Tracks(kinds, c, seen) && |kinds| < U32_MAX
    ensures Tracks(kinds + [kind], c, if seen == U32_MAX && ClassOf(kind) == c then |kinds| else seen)
  {
    var k := FirstOf(kinds, c);
    FirstOfIsFirst(kinds, c);
    if k < |kinds| {
      FirstOfUnique(kinds + [kind], c, k);
    } else {
      FirstOfUnique(kinds + [kind], c, if ClassOf(kind) == c then k else k + 1);
    }
  }

  datatype Seen = Seen(dirs: u32, symlinks: u32, files: u32, devices: u32, specials: u32)

  ghost predicate TracksAll(kinds: seq<InodeKind>, seen: Seen) {
    && Tracks(kinds, Dirs, seen.dirs) && Tracks(kinds, Symlinks, seen.symlinks) && Tracks(kinds, Files, seen.files)
    && Tracks(kinds, Devices, seen.devices) && Tracks(kinds, Specials, seen.specials)
  }

  // Only the first inode of a class is noted.
  function Noted(seen: Seen, kind: InodeKind, i: u32): Seen {
    match kind
    case Directory => if seen.dirs == U32_MAX then seen.(dirs := i) else seen
    case Symlink => if seen.symlinks == U32_MAX then seen.(symlinks := i) else seen
    case Regular => if seen.files == U32_MAX then seen.(files := i) else seen
    case CharDevice | BlockDevice => if seen.devices == U32_MAX then seen.(devices := i) else seen
    case Fifo | Socket => if seen.specials == U32_MAX then seen.(specials := i) else seen
    case Unknown => seen
  }

  lemma NotedTracks(kinds: seq<InodeKind>, kind: InodeKind, seen: Seen)
    requires TracksAll(kinds, seen) && |kinds| < U32_MAX
    ensures TracksAll(kinds + [kind], Noted(seen, kind, |kinds|))
  {
    TracksNext(kinds, kind, Dirs, seen.dirs);
    TracksNext(kinds, kind, Symlinks, seen.symlinks);
    TracksNext(kinds, kind, Files, seen.files);
    TracksNext(kinds, kind, Devices, seen.devices);
    TracksNext(kinds, kind, Specials, seen.specials);
  }

  lemma NothingSeen()
    ensures TracksAll([], Seen(U32_MAX, U32_MAX, U32_MAX, U32_MAX, U32_MAX))
  {
  }

  // What the pass has noted, as positions.
  lemma SeenAll(kinds: seq<InodeKind>, seen: Seen)
    requires TracksAll(kinds, seen)
    ensures FirstOf(kinds, Dirs) == (if seen.dirs == U32_MAX then |kinds| else seen.dirs)
    ensures FirstOf(kinds, Symlinks) == (if seen.symlinks == U32_MAX then |kinds| else seen.symlinks)
    ensures FirstOf(kinds, Files) == (if seen.files == U32_MAX then |kinds| else seen.files)
    ensures FirstOf(kinds, Devices) == (if seen.devices == U32_MAX then |kinds| else seen.devices)
    ensures FirstOf(kinds, Specials) == (if seen.specials == U32_MAX then |kinds| else seen.specials)
  {
    hide FirstOf;
  }

  // The boundaries of any table, read off in one pass; the list cap keeps indices below u32::MAX.
  method ComputeOffsets(modeIndex: seq<u32>, modes: seq<u32>, sharedCount: nat) returns (r: Option<Offsets>)
    requires |modeIndex| <= LIST_CAP
    ensures r.Some? <==>
              && ModesResolve(modeIndex, modes)
              && var kinds := Kinds(modeIndex, modes);
                 FirstOf(kinds, Files) + sharedCount <= Min(FirstOf(kinds, Devices), FirstOf(kinds, Specials))
    ensures r.Some? ==> r.value == Boundaries(Kinds(modeIndex, modes), sharedCount)
  {
    hide FirstOf, Tracks, ModeKind, Noted;
    NothingSeen();
    var seen := Seen(U32_MAX, U32_MAX, U32_MAX, U32_MAX, U32_MAX);
    ghost var kinds: seq<InodeKind> := [];
    for i := 0 to |modeIndex|
      invariant ModesResolve(modeIndex[..i], modes) && kinds == Kinds(modeIndex[..i], modes)
      invariant TracksAll(kinds, seen)
    {
      if modeIndex[i] >= |modes| {
        return None;
      }
      var kind := ModeKind(modes[modeIndex[i]]);
      NotedTracks(kinds, kind, seen);
      seen := Noted(seen, kind, i);
      assert modeIndex[..i + 1] == modeIndex[..i] + [modeIndex[i]];
      kinds := kinds + [kind];
    }
    assert modeIndex[..|modeIndex|] == modeIndex;
    SeenAll(kinds, seen);
    var total := |modeIndex|;
    var fileOffset := if seen.files == U32_MAX then total else seen.files;
    var deviceOffset := if seen.devices == U32_MAX then total else seen.devices;
    var specialOffset := if seen.specials == U32_MAX then total else seen.specials;
    var endOfFiles := Min(deviceOffset, specialOffset);
    if sharedCount > U32_MAX || fileOffset + sharedCount > endOfFiles {
      return None;
    }
    r := Some(Offsets(if seen.dirs == U32_MAX then total else seen.dirs,
                      if seen.symlinks == U32_MAX then total else seen.symlinks,
                      fileOffset, endOfFiles - sharedCount, deviceOffset, specialOffset, total));
  }

  // ------------------------------------------------------------- ordered tables

  function Rank(c: Class): nat {
    match c
    case Dirs => 0
    case Symlinks => 1
    case Files => 2
    case Devices => 3
    case Specials => 4
    case Strangers => 5
  }

  // Directories, then symlinks, regular files, devices, and pipes and sockets.
  ghost predicate Ordered(kinds: seq<InodeKind>) {
    && (forall i :: 0 <= i < |kinds| ==> ClassOf(kinds[i]) != Strangers)
    && (forall i, j :: 0 <= i < j < |kinds| ==> Rank(ClassOf(kinds[i])) <= Rank(ClassOf(kinds[j])))
  }

  // In an ordered table a class's first inode separates lower ranks from higher ones.
  lemma AroundFirst(kinds: seq<InodeKind>, c: Class, i: nat)
    requires Ordered(kinds) && i < |kinds|
    ensures i < FirstOf(kinds, c) < |kinds| ==> Rank(ClassOf(kinds[i])) < Rank(c)
    ensures FirstOf(kinds, c) <= i ==> Rank(ClassOf(kinds[i])) >= Rank(c)
    ensures ClassOf(kinds[i]) == c ==> FirstOf(kinds, c) <= i
    ensures FirstOf(kinds, c) == |kinds| ==> ClassOf(kinds[i]) != c
  {
    FirstOfIsFirst(kinds, c);
    assert ClassOf(kinds[i]) == c <==> Rank(ClassOf(kinds[i])) == Rank(c);
  }

  // In an ordered table each class is exactly a stretch between recorded boundaries,
  // and the shared files are the last `sharedCount` of theirs.
  lemma PartitionRight(kinds: seq<InodeKind>, sharedCount: nat, i: nat)
    requires Ordered(kinds) && |kinds| <= LIST_CAP && i < |kinds|
    requires FirstOf(kinds, Files) + sharedCount <= Min(FirstOf(kinds, Devices), FirstOf(kinds, Specials))
    ensures var o := Boundaries(kinds, sharedCount);
            && o.fileOffset <= o.sharedFileOffset <= o.total
            && (kinds[i] == Regular <==> o.fileOffset <= i < Min(o.deviceOffset, o.specialOffset))
            && (ClassOf(kinds[i]) == Devices <==> o.deviceOffset <= i < o.specialOffset)
            && (ClassOf(kinds[i]) == Specials <==> o.specialOffset <= i)
            && (kinds[i] == Symlink <==>
                  o.symlinkOffset <= i < Min(o.fileOffset, Min(o.deviceOffset, o.specialOffset)))
            && (kinds[i] == Directory <==>
                  i < Min(o.symlinkOffset, Min(o.fileOffset, Min(o.deviceOffset, o.specialOffset))))
            && o.sharedFileOffset == Min(o.deviceOffset, o.specialOffset) - sharedCount
  {
    AroundFirst(kinds, Symlinks, i);
    AroundFirst(kinds, Files, i);
    AroundFirst(kinds, Devices, i);
    AroundFirst(kinds, Specials, i);
  }

  function Count(kinds: seq<InodeKind>, c: Class): nat {
    if kinds == [] then 0
    else Count(kinds[..|kinds| - 1], c) + if ClassOf(kinds[|kinds| - 1]) == c then 1 else 0
  }

  lemma {:induction false} CountIsStretch(kinds: seq<InodeKind>, c: Class, a: nat, b: nat)
    requires a <= b <= |kinds|
    requires forall i :: 0 <= i < |kinds| ==> (ClassOf(kinds[i]) == c <==> a <= i < b)
    ensures Count(kinds, c) == b - a
  {
    if kinds != [] {
      var n := |kinds| - 1;
      CountIsStretch(kinds[..n], c, Min(a, n), Min(b, n));
    }
  }

  lemma ClassStretches(kinds: seq<InodeKind>, i: nat)
    requires Ordered(kinds) && i < |kinds|
    ensures var f, d, s := FirstOf(kinds, Files), FirstOf(kinds, Devices), FirstOf(kinds, Specials);
            && (ClassOf(kinds[i]) == Files <==> f <= i < Min(d, s))
            && (ClassOf(kinds[i]) == Devices <==> d <= i < s)
            && (ClassOf(kinds[i]) == Specials <==> s <= i)
  {
    AroundFirst(kinds, Files, i);
    AroundFirst(kinds, Devices, i);
    AroundFirst(kinds, Specials, i);
  }

  lemma CountIs(kinds: seq<InodeKind>, c: Class, a: nat, b: nat)
    requires a <= |kinds| && b <= |kinds|
    requires forall i: nat :: i < |kinds| ==> (ClassOf(kinds[i]) == c <==> a <= i < b)
    ensures Count(kinds, c) == Max(0, b - a)
  {
    CountIsStretch(kinds, c, Min(a, b), b);
  }

  // Where the stretches of files, devices and specials lie.
  ghost predicate Stretches(kinds: seq<InodeKind>, f: nat, d: nat, s: nat) {
    && f <= |kinds| && d <= |kinds| && s <= |kinds|
    && (forall i: nat :: i < |kinds| ==> (ClassOf(kinds[i]) == Files <==> f <= i < Min(d, s)))
    && (forall i: nat :: i < |kinds| ==> (ClassOf(kinds[i]) == Devices <==> d <= i < s))
    && (forall i: nat :: i < |kinds| ==> (ClassOf(kinds[i]) == Specials <==> s <= i < |kinds|))
    && (f < |kinds| ==> f < Min(d, s))
  }

  lemma OrderedStretches(kinds: seq<InodeKind>)
    requires Ordered(kinds)
    ensures Stretches(kinds, FirstOf(kinds, Files), FirstOf(kinds, Devices), FirstOf(kinds, Specials))
  {
    forall i: nat | i < |kinds|
      ensures ClassOf(kinds[i]) == Files <==>
                FirstOf(kinds, Files) <= i < Min(FirstOf(kinds, Devices), FirstOf(kinds, Specials))
      ensures ClassOf(kinds[i]) == Devices <==> FirstOf(kinds, Devices) <= i < FirstOf(kinds, Specials)
      ensures ClassOf(kinds[i]) == Specials <==> FirstOf(kinds, Specials) <= i
    {
      ClassStretches(kinds, i);
    }
    FirstOfIsFirst(kinds, Files);
  }

  // An ordered table opens exactly when there are at least as many regular files as
  // shared ones, and there is a regular file or nothing comes after where one would be.
  lemma OrderedTableOpensIff(kinds: seq<InodeKind>, sharedCount: nat)
    requires Ordered(kinds)
    ensures FirstOf(kinds, Files) + sharedCount <= Min(FirstOf(kinds, Devices), FirstOf(kinds, Specials)) <==>
              && sharedCount <= Count(kinds, Files)
              && (Count(kinds, Files) > 0 || (Count(kinds, Devices) == 0 && Count(kinds, Specials) == 0))
  {
    OrderedStretches(kinds);
    StretchesOpenIff(kinds, FirstOf(kinds, Files), FirstOf(kinds, Devices), FirstOf(kinds, Specials), sharedCount);
  }

  lemma StretchesOpenIff(kinds: seq<InodeKind>, f: nat, d: nat, s: nat, sharedCount: nat)
    requires Stretches(kinds, f, d, s)
    ensures f + sharedCount <= Min(d, s) <==>
              && sharedCount <= Count(kinds, Files)
              && (Count(kinds, Files) > 0 || (Count(kinds, Devices) == 0 && Count(kinds, Specials) == 0))
  {
    CountIs(kinds, Files, f, Min(d, s));
    CountIs(kinds, Devices, d, s);
    CountIs(kinds, Specials, s, |kinds|);
  }

  // A tree with a device node and no regular file, in the prescribed order, is refused.
  lemma DeviceWithoutFilesIsRefused()
    ensures var kinds := [Directory, CharDevice];
            && Ordered(kinds)
            && !(FirstOf(kinds, Files) + 0 <= Min(FirstOf(kinds, Devices), FirstOf(kinds, Specials)))
  {
    var kinds := [Directory, CharDevice];
    FirstOfUnique(kinds, Files, 2);
    FirstOfUnique(kinds, Devices, 1);
  }

  // ------------------------------------------------------------ shared files

  function Repeat(x: nat, n: nat): (r: seq<nat>)
    ensures |r| == n && forall i :: 0 <= i < n ==> r[i] == x
  {
    seq<nat>(n, _ => x)
  }

  // A packed entry k at index i stands for k + 2 copies of i.
  function Expanded(raw: seq<nat>): seq<nat> {
    if raw == [] then []
    else Expanded(raw[..|raw| - 1]) + Repeat(|raw| - 1, raw[|raw| - 1] + 2)
  }

  method UnpackSharedFiles(raw: seq<u32>) returns (out: seq<nat>)
    ensures out == Expanded(raw)
  {
    out := [];
    for i := 0 to |raw|
      invariant out == Expanded(raw[..i])
    {
      assert raw[..i + 1][..i] == raw[..i];
      var count: nat := raw[i] as int + 2;
      out := out + Repeat(i, count);
    }
    assert raw[..|raw|] == raw;
  }

  // How many trailing elements equal the last one.
  function TailRun(g: seq<nat>): (n: nat)
    ensures n <= |g| && (g != [] ==> n > 0)
  {
    if |g| <= 1 then |g|
    else if g[|g| - 2] == g[|g| - 1] then 1 + TailRun(g[..|g| - 1])
    else 1
  }

  // Groups numbered consecutively from zero, each standing for at least two inodes.
  ghost predicate Groups(g: seq<nat>)
    decreases |g|
  {
    g != [] ==>
      var n := TailRun(g);
      && n >= 2
      && Groups(g[..|g| - n])
      && g[|g| - 1] == if n == |g| then 0 else g[|g| - n - 1] + 1
  }

  // What the writer stores: each group's size less the two every group has.
  function Packed(g: seq<nat>): seq<nat>
    requires Groups(g)
    decreases |g|
  {
    if g == [] then [] else Packed(g[..|g| - TailRun(g)]) + [TailRun(g) - 2]
  }

  lemma ExpandedSnoc(raw: seq<nat>, k: nat)
    ensures Expanded(raw + [k]) == Expanded(raw) + Repeat(|raw|, k + 2)
  {
    assert (raw + [k])[..|raw|] == raw;
  }

  lemma {:induction false} RunAtTheEnd(g: seq<nat>)
    requires g != []
    ensures g == g[..|g| - TailRun(g)] + Repeat(g[|g| - 1], TailRun(g))
  {
    if |g| > 1 && g[|g| - 2] == g[|g| - 1] {
      var rest := g[..|g| - 1];
      RunAtTheEnd(rest);
      assert g == rest + [g[|g| - 1]];
      assert rest[..|rest| - TailRun(rest)] == g[..|g| - TailRun(g)];
    }
  }

  // Unpacking a packed shared-files table gives the table back.
  lemma {:induction false} UnpackInvertsPack(g: seq<nat>)
    requires Groups(g)
    ensures Expanded(Packed(g)) == g
    ensures |Packed(g)| == if g == [] then 0 else g[|g| - 1] + 1
    decreases |g|
  {
    if g != [] {
      var rest := g[..|g| - TailRun(g)];
      GroupsEnd(g);
      hide TailRun, Expanded, Repeat, Groups;
      UnpackInvertsPack(rest);
      ExpandedSnoc(Packed(rest), TailRun(g) - 2);
      RunAtTheEnd(g);
    } else {
      assert Packed(g) == [];
    }
  }

  lemma GroupsEnd(g: seq<nat>)
    requires Groups(g) && g != []
    ensures var rest := g[..|g| - TailRun(g)];
            && TailRun(g) >= 2 && Groups(rest) && Packed(g) == Packed(rest) + [TailRun(g) - 2]
            && g[|g| - 1] == if rest == [] then 0 else rest[|rest| - 1] + 1
  {
  }

  // Where a regular inode's chunks start in the chunk table.
  function ChunkTableSlot(o: Offsets, sharedFiles: seq<u32>, inode: nat): Option<nat>
    requires o.fileOffset <= o.sharedFileOffset
  {
    if inode < o.sharedFileOffset then
      if inode < o.fileOffset then None else Some(inode - o.fileOffset)
    else if inode - o.sharedFileOffset < |sharedFiles| then
      Some(o.sharedFileOffset - o.fileOffset + sharedFiles[inode - o.sharedFileOffset])
    else None
  }

  // Two inodes in one shared group.
  predicate SameGroup(o: Offsets, sharedFiles: seq<u32>, a: nat, b: nat) {
    && o.sharedFileOffset <= a < o.sharedFileOffset + |sharedFiles|
    && o.sharedFileOffset <= b < o.sharedFileOffset + |sharedFiles|
    && sharedFiles[a - o.sharedFileOffset] == sharedFiles[b - o.sharedFileOffset]
  }

  lemma RegularSlot(o: Offsets, sharedFiles: seq<u32>, inode: nat)
    requires o.fileOffset <= inode < o.sharedFileOffset + |sharedFiles| && o.fileOffset <= o.sharedFileOffset
    ensures ChunkTableSlot(o, sharedFiles, inode).Some?
    ensures inode < o.sharedFileOffset
            <==> ChunkTableSlot(o, sharedFiles, inode).value < o.sharedFileOffset - o.fileOffset
  {
  }

  // How many regular files come before an inode.
  function FilesBefore(kinds: seq<InodeKind>, i: nat): nat
    requires i <= |kinds|
  {
    Count(kinds[..i], Files)
  }

  lemma FilesBeforeAre(kinds: seq<InodeKind>, i: nat)
    requires Ordered(kinds) && i < |kinds| && kinds[i] == Regular
    ensures FirstOf(kinds, Files) <= i && FilesBefore(kinds, i) == i - FirstOf(kinds, Files)
    ensures i < Min(FirstOf(kinds, Devices), FirstOf(kinds, Specials))
    ensures Count(kinds, Files) == Min(FirstOf(kinds, Devices), FirstOf(kinds, Specials)) - FirstOf(kinds, Files)
  {
    var f := FirstOf(kinds, Files);
    OrderedStretches(kinds);
    ClassStretches(kinds, i);
    CountIs(kinds, Files, f, Min(FirstOf(kinds, Devices), FirstOf(kinds, Specials)));
    CountIsStretch(kinds[..i], Files, f, i);
  }

  // The slots are given out in inode order: the k-th file that is not shared has slot k, and the j-th shared one the
  // slot its group has behind all of those.
  lemma SlotsInOrder(kinds: seq<InodeKind>, sharedFiles: seq<u32>, i: nat)
    requires Ordered(kinds) && |kinds| <= LIST_CAP && i < |kinds| && kinds[i] == Regular
    requires FirstOf(kinds, Files) + |sharedFiles| <= Min(FirstOf(kinds, Devices), FirstOf(kinds, Specials))
    ensures |sharedFiles| <= Count(kinds, Files) && FilesBefore(kinds, i) < Count(kinds, Files)
    ensures var unshared, k := Count(kinds, Files) - |sharedFiles|, FilesBefore(kinds, i);
            ChunkTableSlot(Boundaries(kinds, |sharedFiles|), sharedFiles, i)
            == Some(if k < unshared then k else unshared + sharedFiles[k - unshared])
  {
    hide FirstOf, Count, Ordered, FilesBefore, ClassOf;
    FilesBeforeAre(kinds, i);
  }

  // Regular inodes have the same content identity exactly when they are the same
  // inode or sit in the same shared group.
  lemma ContentIdentity(kinds: seq<InodeKind>, sharedFiles: seq<u32>, a: nat, b: nat)
    requires Ordered(kinds) && |kinds| <= LIST_CAP && a < |kinds| && b < |kinds|
    requires FirstOf(kinds, Files) + |sharedFiles| <= Min(FirstOf(kinds, Devices), FirstOf(kinds, Specials))
    requires kinds[a] == Regular && kinds[b] == Regular
    ensures var o := Boundaries(kinds, |sharedFiles|);
            && ChunkTableSlot(o, sharedFiles, a).Some? && ChunkTableSlot(o, sharedFiles, b).Some?
            && (ChunkTableSlot(o, sharedFiles, a) == ChunkTableSlot(o, sharedFiles, b) <==>
                  a == b || SameGroup(o, sharedFiles, a, b))
  {
    var o := Boundaries(kinds, |sharedFiles|);
    assert o.fileOffset <= a < o.sharedFileOffset + |sharedFiles| by {
      PartitionRight(kinds, |sharedFiles|, a);
    }
    assert o.fileOffset <= b < o.sharedFileOffset + |sharedFiles| by {
      PartitionRight(kinds, |sharedFiles|, b);
    }
    RegularSlot(o, sharedFiles, a);
    RegularSlot(o, sharedFiles, b);
  }
}
