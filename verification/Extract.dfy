/**
 Extracting a walked tree: directories, then one writer for each content, then links,
 copies and symlinks. A writer reads its file through the cache; a link or a copy takes
 whatever lies at the path its content was recorded under.
 */
module Extract {
  import opened Common
  import opened CacheProtocol
  import opened InodeTable
  import opened DirTree
  import opened FileRead
  import DirOrder
  import DirWalk

  datatype Node = Dir | File(content: Bytes) | Link(target: Bytes)

  // What an extraction asks of the destination.
  datatype Op =
    | MakeDir(path: Bytes)
    | WriteFile(path: Bytes)
    | HardLink(from: Bytes, to: Bytes)
    | CopyFile(from: Bytes, to: Bytes)
    | MakeLink(path: Bytes)

  // The image, what its cache answers, link targets, which operations the destination carries out, and what a write or
  // a copy that fails leaves behind.
  datatype World = World(fs: Fs, img: Image, answers: Answers, target: nat -> Bytes, works: Op -> bool,
                         leaves: (Bytes, nat) -> Option<Bytes>)

  ghost predicate Sound(w: World) {
    Opened(w.fs) && AnswersOk(w.img, w.answers)
  }

  datatype Stats = Stats(directories: nat, files: nat, hardlinks: nat, symlinks: nat, skipped: nat, errors: nat)

  datatype ExtractError = NoContent(inode: nat) | OperationFailed(op: Op) | EntriesFailed(count: nat)

  type Disk = map<Bytes, Node>

  // --- What is asked for ---------------------------------------------------------------------------------------

  predicate DistinctPaths(es: seq<WalkEntry>) {
    forall i, j :: 0 <= i < j < |es| ==> es[i].path != es[j].path
  }

  // A walk lists only inodes there are, under the kinds they have.
  predicate Listed(w: World, es: seq<WalkEntry>) {
    forall i :: 0 <= i < |es| ==> es[i].inode < |w.fs.kinds| && es[i].kind == w.fs.kinds[es[i].inode]
  }

  // A file's content goes by its slot in the chunk table.
  function ContentId(fs: Fs, inode: nat): Option<nat> {
    if fs.offsets.fileOffset > fs.offsets.sharedFileOffset then None
    else
      match ChunkTableSlot(fs.offsets, fs.sharedFiles, inode)
      case None => None
      case Some(slot) => if slot <= U32_MAX then Some(slot) else None
  }

  predicate Identified(w: World, e: WalkEntry) {
    e.kind == Regular ==> ContentId(w.fs, e.inode).Some?
  }

  ghost predicate HasContent(w: World, e: WalkEntry) {
    e.kind == Regular ==> ContentId(w.fs, e.inode).Some? && Readable(w.fs, e.inode)
  }

  function Cid(w: World, e: WalkEntry): nat {
    if ContentId(w.fs, e.inode).Some? then ContentId(w.fs, e.inode).value else 0
  }

  // Files with one content id read the same slot, so they are the same bytes.
  lemma SameIdSameFile(w: World, a: WalkEntry, b: WalkEntry)
    requires Sound(w) && IsFile(w.fs, a.inode) && IsFile(w.fs, b.inode) && Readable(w.fs, a.inode)
    requires ContentId(w.fs, a.inode).Some? && ContentId(w.fs, b.inode).Some? && Cid(w, a) == Cid(w, b)
    ensures Readable(w.fs, b.inode)
    ensures FileBytes(w.fs, w.img.payloads, a.inode) == FileBytes(w.fs, w.img.payloads, b.inode)
  {
    assert SlotOf(w.fs, a.inode) == SlotOf(w.fs, b.inode);
  }

  // Regular, and the first of the list with its content.
  predicate First(w: World, es: seq<WalkEntry>, i: nat)
    requires i < |es|
  {
    es[i].kind == Regular && forall j :: 0 <= j < i && es[j].kind == Regular ==> Cid(w, es[j]) != Cid(w, es[i])
  }

  predicate Repeat(w: World, es: seq<WalkEntry>, i: nat)
    requires i < |es|
  {
    es[i].kind == Regular && !First(w, es, i)
  }

  datatype Group = Directories | Firsts | Repeats | Links | Others

  function GroupOf(w: World, es: seq<WalkEntry>, i: nat): Group
    requires i < |es|
  {
    match es[i].kind
    case Directory => Directories
    case Regular => if First(w, es, i) then Firsts else Repeats
    case Symlink => Links
    case _ => Others
  }

  // How many of the first n entries are of a group.
  function Count(w: World, es: seq<WalkEntry>, n: nat, g: Group): nat
    requires n <= |es|
  {
    if n == 0 then 0 else Count(w, es, n - 1, g) + if GroupOf(w, es, n - 1) == g then 1 else 0
  }

  lemma {:induction false} GroupsPartition(w: World, es: seq<WalkEntry>, n: nat)
    requires n <= |es|
    ensures Count(w, es, n, Directories) + Count(w, es, n, Firsts) + Count(w, es, n, Repeats)
            + Count(w, es, n, Links) + Count(w, es, n, Others) == n
  {
    if n > 0 {
      GroupsPartition(w, es, n - 1);
    }
  }

  // The entry whose content another repeats: the first with it.
  function WriterFrom(w: World, es: seq<WalkEntry>, i: nat, k: nat): (j: nat)
    requires k <= i < |es| && es[i].kind == Regular
    requires forall h :: 0 <= h < k && es[h].kind == Regular ==> Cid(w, es[h]) != Cid(w, es[i])
    ensures j <= i && First(w, es, j) && Cid(w, es[j]) == Cid(w, es[i]) && (j == i <==> First(w, es, i))
    decreases i - k
  {
    if es[k].kind == Regular && Cid(w, es[k]) == Cid(w, es[i]) then k else WriterFrom(w, es, i, k + 1)
  }

  function Writer(w: World, es: seq<WalkEntry>, i: nat): nat
    requires i < |es| && es[i].kind == Regular
  {
    WriterFrom(w, es, i, 0)
  }

  predicate HasPlace(kind: InodeKind) {
    kind == Directory || kind == Regular || kind == Symlink
  }

  // What belongs at an entry's path: for a file, the bytes of its own inode.
  ghost function NodeOf(w: World, e: WalkEntry): Option<Node> {
    match e.kind
    case Directory => Some(Dir)
    case Regular => if Readable(w.fs, e.inode) then Some(File(FileBytes(w.fs, w.img.payloads, e.inode))) else None
    case Symlink => Some(Link(w.target(e.inode)))
    case _ => None
  }

  ghost predicate InPlace(w: World, e: WalkEntry, disk: Disk) {
    NodeOf(w, e).Some? && e.path in disk && disk[e.path] == NodeOf(w, e).value
  }

  // Every entry with a place in the destination is there, and nothing else has changed.
  ghost predicate Delivered(w: World, es: seq<WalkEntry>, before: Disk, disk: Disk) {
    && (forall i :: 0 <= i < |es| && HasPlace(es[i].kind) ==> InPlace(w, es[i], disk))
    && (forall p :: p in disk ==> p in before || exists i :: 0 <= i < |es| && es[i].path == p)
    && (forall p :: p in before && (forall i :: 0 <= i < |es| ==> es[i].path != p) ==>
          p in disk && disk[p] == before[p])
  }

  // The one operation an entry calls for.
  function OpFor(w: World, es: seq<WalkEntry>, i: nat, hardlink: bool): Option<Op>
    requires i < |es|
  {
    match GroupOf(w, es, i)
    case Directories => Some(MakeDir(es[i].path))
    case Firsts => Some(WriteFile(es[i].path))
    case Repeats =>
      var from := es[Writer(w, es, i)].path;
      Some(if hardlink then HardLink(from, es[i].path) else CopyFile(from, es[i].path))
    case Links => Some(MakeLink(es[i].path))
    case Others => None
  }

  predicate OpWorks(w: World, es: seq<WalkEntry>, i: nat, hardlink: bool)
    requires i < |es|
  {
    OpFor(w, es, i, hardlink).Some? ==> w.works(OpFor(w, es, i, hardlink).value)
  }

  ghost predicate EntryWorks(w: World, es: seq<WalkEntry>, i: nat, hardlink: bool)
    requires i < |es|
  {
    HasContent(w, es[i]) && OpWorks(w, es, i, hardlink)
  }

  // Everything the extraction asks for is there and works.
  ghost predicate AllWork(w: World, es: seq<WalkEntry>, hardlink: bool) {
    forall i :: 0 <= i < |es| ==> EntryWorks(w, es, i, hardlink)
  }

  // A file can be read to its end: its chunks lie inside their blocks and no block fails.
  ghost predicate Reads(w: World, e: WalkEntry) {
    && (AnswersAll(w.img, w.answers))
    && (e.kind == Regular && Readable(w.fs, e.inode) ==> FileSound(w.fs, w.img.payloads, e.inode))
  }

  ghost predicate Goes(w: World, es: seq<WalkEntry>, hardlink: bool) {
    AllWork(w, es, hardlink) && forall i :: 0 <= i < |es| ==> Reads(w, es[i])
  }

  // --- Progress ------------------------------------------------------------------------------------------------

  // The entries in `done` are on the disk, and no path but those of entries has changed.
  ghost predicate Holding(w: World, es: seq<WalkEntry>, done: set<nat>, before: Disk, disk: Disk) {
    && (forall i :: i in done ==> i < |es| && InPlace(w, es[i], disk))
    && forall p :: Strange(es, p) ==> Same(before, disk, p)
  }

  ghost predicate Strange(es: seq<WalkEntry>, p: Bytes) {
    forall i :: 0 <= i < |es| ==> es[i].path != p
  }

  predicate Same(before: Disk, disk: Disk, p: Bytes) {
    (p in disk <==> p in before) && (p in disk ==> disk[p] == before[p])
  }

  lemma PlaceOne(w: World, es: seq<WalkEntry>, done: set<nat>, before: Disk, disk: Disk, i: nat)
    requires DistinctPaths(es) && Holding(w, es, done, before, disk) && i < |es| && NodeOf(w, es[i]).Some?
    ensures Holding(w, es, done + {i}, before, disk[es[i].path := NodeOf(w, es[i]).value])
  {
    var disk' := disk[es[i].path := NodeOf(w, es[i]).value];
    forall k | k in done + {i} ensures k < |es| && InPlace(w, es[k], disk') {
      if k != i {
        assert k in done;
        assert es[k].path != es[i].path;
      }
    }
  }

  // What a failing write or copy leaves is under its entry's own path.
  function Residue(w: World, path: Bytes, clock: nat, disk: Disk): Disk {
    match w.leaves(path, clock)
    case None => disk
    case Some(bytes) => disk[path := File(bytes)]
  }

  ghost predicate SameElsewhere(before: Disk, disk: Disk, path: Bytes) {
    forall p :: p != path ==> Same(before, disk, p)
  }

  lemma LeaveOne(w: World, es: seq<WalkEntry>, done: set<nat>, before: Disk, disk: Disk, disk': Disk, i: nat)
    requires DistinctPaths(es) && Holding(w, es, done, before, disk) && i < |es|
    requires SameElsewhere(disk, disk', es[i].path)
    ensures Holding(w, es, done - {i}, before, disk')
  {
    forall k | k in done - {i} ensures k < |es| && InPlace(w, es[k], disk') {
      assert k in done;
      assert es[k].path != es[i].path;
      assert Same(disk, disk', es[k].path);
    }
    forall p | Strange(es, p) ensures Same(before, disk', p) {
      assert Same(before, disk, p) && Same(disk, disk', p);
    }
  }

  // Entries with a place that are not there: directories, or the others.
  predicate Misses(e: WalkEntry, directories: bool) {
    HasPlace(e.kind) && (e.kind == Directory <==> directories)
  }

  function Lost(es: seq<WalkEntry>, n: nat, done: set<nat>, directories: bool): set<nat>
    requires n <= |es|
  {
    set i | 0 <= i < n && Misses(es[i], directories) && i !in done
  }

  lemma LostAfter(es: seq<WalkEntry>, n: nat, done: set<nat>, done': set<nat>, directories: bool)
    requires n < |es| && forall i :: 0 <= i < n ==> (i in done <==> i in done')
    ensures |Lost(es, n + 1, done', directories)|
            == |Lost(es, n, done, directories)| + if Misses(es[n], directories) && n !in done' then 1 else 0
  {
    hide Misses;
    LostBefore(es, n, done, done', directories);
    var lost := Lost(es, n, done', directories);
    if Misses(es[n], directories) && n !in done' {
      assert Lost(es, n + 1, done', directories) == lost + {n} && n !in lost;
    } else {
      assert Lost(es, n + 1, done', directories) == lost;
    }
  }

  lemma LostBefore(es: seq<WalkEntry>, n: nat, done: set<nat>, done': set<nat>, directories: bool)
    requires n <= |es| && forall i :: 0 <= i < n ==> (i in done <==> i in done')
    ensures Lost(es, n, done', directories) == Lost(es, n, done, directories)
  {
    hide Misses;
  }

  lemma AllPlaced(w: World, es: seq<WalkEntry>, done: set<nat>, before: Disk, disk: Disk)
    requires Holding(w, es, done, before, disk) && forall i :: 0 <= i < |es| && HasPlace(es[i].kind) ==> i in done
    ensures Delivered(w, es, before, disk)
  {
    forall p | p in disk ensures p in before || exists i :: 0 <= i < |es| && es[i].path == p {
      if Strange(es, p) {
        assert Same(before, disk, p);
      }
    }
    forall p | p in before && (forall i :: 0 <= i < |es| ==> es[i].path != p)
      ensures p in disk && disk[p] == before[p]
    {
      assert Strange(es, p);
      assert Same(before, disk, p);
    }
  }

  // --- The phases ----------------------------------------------------------------------------------------------

  // Directories first, in walk order. Stops at the first failure unless told to keep going.
  method MakeDirectories(w: World, es: seq<WalkEntry>, keepGoing: bool, hardlink: bool, before: Disk)
    returns (stop: Option<ExtractError>, made: nat, errors: nat, disk: Disk, ghost done: set<nat>)
    requires DistinctPaths(es)
    ensures stop.Some? || errors > 0 ==> !Goes(w, es, hardlink)
    ensures stop.Some? ==> !keepGoing
    ensures stop.None? ==>
              && Holding(w, es, done, before, disk) && errors == |Lost(es, |es|, done, true)|
              && forall i :: i in done <==> 0 <= i < |es| && es[i].kind == Directory && w.works(MakeDir(es[i].path))
    ensures stop.None? && errors == 0 ==>
              && made == Count(w, es, |es|, Directories)
              && forall i :: 0 <= i < |es| && es[i].kind == Directory ==> EntryWorks(w, es, i, hardlink)
  {
    hide First, Writer, Goes, Holding, Lost, NodeOf;
    made, errors, disk, done := 0, 0, before, {};
    NoneHeld(w, es, before);
    for i := 0 to |es|
      invariant errors > 0 ==> !Goes(w, es, hardlink)
      invariant Holding(w, es, done, before, disk) && errors == |Lost(es, i, done, true)|
      invariant forall k :: k in done <==> 0 <= k < i && es[k].kind == Directory && w.works(MakeDir(es[k].path))
      invariant errors == 0 ==>
        && made == Count(w, es, i, Directories)
        && forall k :: 0 <= k < i && es[k].kind == Directory ==> EntryWorks(w, es, k, hardlink)
    {
      if es[i].kind != Directory {
        LostAfter(es, i, done, done, true);
        continue;
      }
      var op := MakeDir(es[i].path);
      if !w.works(op) {
        assert !OpWorks(w, es, i, hardlink);
        OneFails(w, es, i, hardlink);
        if !keepGoing {
          return Some(OperationFailed(op)), made, errors, disk, done;
        }
        errors := errors + 1;
        LostAfter(es, i, done, done, true);
        continue;
      }
      DirNode(w, es[i]);
      PlaceOne(w, es, done, before, disk, i);
      LostAfter(es, i, done, done + {i}, true);
      disk := disk[es[i].path := Dir];
      done := done + {i};
      made := made + 1;
    }
    stop := None;
  }

  lemma NoneHeld(w: World, es: seq<WalkEntry>, before: Disk)
    ensures Holding(w, es, {}, before, before) && Lost(es, 0, {}, true) == {} && Lost(es, 0, {}, false) == {}
  {
  }

  lemma DirNode(w: World, e: WalkEntry)
    requires e.kind == Directory
    ensures NodeOf(w, e) == Some(Dir)
  {
  }

  lemma OneFails(w: World, es: seq<WalkEntry>, i: nat, hardlink: bool)
    requires i < |es| && (!EntryWorks(w, es, i, hardlink) || !Reads(w, es[i]))
    ensures !Goes(w, es, hardlink)
  {
  }

  // The contents regular entries name.
  ghost function Contents(w: World, es: seq<WalkEntry>, n: nat): set<nat>
    requires n <= |es|
  {
    set i | 0 <= i < n && es[i].kind == Regular :: Cid(w, es[i])
  }

  lemma ContentsStep(w: World, es: seq<WalkEntry>, i: nat)
    requires i < |es|
    ensures Contents(w, es, i + 1)
            == Contents(w, es, i) + if es[i].kind == Regular then {Cid(w, es[i])} else {}
    ensures First(w, es, i) <==> es[i].kind == Regular && Cid(w, es[i]) !in Contents(w, es, i)
  {
  }

  // One writer for each content: the first entry that names it.
  predicate Writers(w: World, es: seq<WalkEntry>, writers: seq<nat>, n: nat)
    requires n <= |es|
  {
    && (forall k :: 0 <= k < |writers| ==> writers[k] < n && First(w, es, writers[k]))
    && (forall i :: 0 <= i < n && First(w, es, i) ==> i in writers)
    && forall j, k :: 0 <= j < k < |writers| ==> writers[j] < writers[k]
  }

  lemma WritersStep(w: World, es: seq<WalkEntry>, writers: seq<nat>, i: nat)
    requires i < |es| && Writers(w, es, writers, i)
    ensures Writers(w, es, if First(w, es, i) then writers + [i] else writers, i + 1)
  {
    hide First;
  }

  method PickWriters(w: World, es: seq<WalkEntry>, hardlink: bool) returns (r: Result<seq<nat>, ExtractError>)
    ensures r.Err? ==>
              && !Goes(w, es, hardlink)
              && exists i :: 0 <= i < |es| && !Identified(w, es[i]) && r.error == NoContent(es[i].inode)
    ensures r.Ok? ==>
      && (forall i :: 0 <= i < |es| ==> Identified(w, es[i]))
      && Writers(w, es, r.value, |es|) && |r.value| == Count(w, es, |es|, Firsts) == |Contents(w, es, |es|)|
  {
    hide Writer, First, Writers, Contents, Cid;
    var writers: seq<nat> := [];
    var seen: set<nat> := {};
    NoWriters(w, es);
    for i := 0 to |es|
      invariant forall k :: 0 <= k < i ==> Identified(w, es[k])
      invariant Writers(w, es, writers, i)
      invariant seen == Contents(w, es, i) && |writers| == Count(w, es, i, Firsts) == |seen|
    {
      ContentsStep(w, es, i);
      WritersStep(w, es, writers, i);
      if es[i].kind != Regular {
        continue;
      }
      if ContentId(w.fs, es[i].inode).None? {
        OneFails(w, es, i, hardlink);
        return Err(NoContent(es[i].inode));
      }
      var cid := Cid(w, es[i]);
      if cid !in seen {
        seen := seen + {cid};
        writers := writers + [i];
      }
    }
    return Ok(writers);
  }

  lemma NoWriters(w: World, es: seq<WalkEntry>)
    ensures Writers(w, es, [], 0) && Contents(w, es, 0) == {}
  {
  }

  // Every index below n, each once.
  predicate Schedule(order: seq<nat>, n: nat) {
    && |order| == n && (forall k :: 0 <= k < n ==> order[k] < n)
    && (forall j, k :: 0 <= j < k < n ==> order[j] != order[k]) && Covers(order, n)
  }

  predicate Covers(order: seq<nat>, n: nat) {
    forall k :: 0 <= k < n ==> k in order
  }

  // What a writer is done with: its content is under its path, and its path is known by its content.
  ghost predicate DoneWith(w: World, es: seq<WalkEntry>, i: nat, written: map<nat, Bytes>)
    requires i < |es|
  {
    Cid(w, es[i]) in written && written[Cid(w, es[i])] == es[i].path
  }

  lemma FirstsDiffer(w: World, es: seq<WalkEntry>, i: nat, j: nat)
    requires i < j < |es| && First(w, es, i) && First(w, es, j)
    ensures Cid(w, es[i]) != Cid(w, es[j])
  {
  }

  lemma WritersDiffer(w: World, es: seq<WalkEntry>, writers: seq<nat>, j: nat, k: nat)
    requires Writers(w, es, writers, |es|) && j < |writers| && k < |writers| && j != k
    ensures writers[j] != writers[k] && Cid(w, es[writers[j]]) != Cid(w, es[writers[k]])
  {
    hide First;
    if j < k {
      FirstsDiffer(w, es, writers[j], writers[k]);
    } else {
      FirstsDiffer(w, es, writers[k], writers[j]);
    }
  }

  // What is known once the writers in `ran` have run.
  ghost predicate Ran(w: World, es: seq<WalkEntry>, writers: seq<nat>, ran: set<nat>, ok: seq<bool>,
                      written: map<nat, Bytes>, placed: set<nat>, done: set<nat>)
  {
    && |ok| == |writers|
    && (forall k :: k in ran ==> k < |writers| && writers[k] < |es| && OneRan(w, es, writers[k], ok[k], written, done))
    && (forall i :: i in placed ==> i in done)
    && forall i :: i in done ==> i in placed || exists k :: k in ran && ok[k] && writers[k] == i
  }

  ghost predicate Wrote(w: World, e: WalkEntry) {
    w.works(WriteFile(e.path)) && HasContent(w, e)
  }

  ghost predicate OneRan(w: World, es: seq<WalkEntry>, i: nat, good: bool, written: map<nat, Bytes>, done: set<nat>)
    requires i < |es|
  {
    if good then Wrote(w, es[i]) && DoneWith(w, es, i, written) && i in done
    else !w.works(WriteFile(es[i].path)) || !HasContent(w, es[i]) || !Reads(w, es[i])
  }

  ghost predicate AllRan(w: World, es: seq<WalkEntry>, writers: seq<nat>, ok: seq<bool>, written: map<nat, Bytes>,
                         placed: set<nat>, done: set<nat>)
  {
    && |ok| == |writers|
    && (forall k :: 0 <= k < |writers| ==> writers[k] < |es| && OneRan(w, es, writers[k], ok[k], written, done))
    && (forall i :: i in placed ==> i in done)
    && forall i :: i in done ==> i in placed || exists k :: 0 <= k < |writers| && ok[k] && writers[k] == i
  }

  lemma RanToTheEnd(w: World, es: seq<WalkEntry>, writers: seq<nat>, ran: set<nat>, ok: seq<bool>,
                    written: map<nat, Bytes>, placed: set<nat>, done: set<nat>)
    requires Ran(w, es, writers, ran, ok, written, placed, done) && forall k :: 0 <= k < |writers| ==> k in ran
    ensures AllRan(w, es, writers, ok, written, placed, done)
  {
  }

  lemma RanOneMore(w: World, es: seq<WalkEntry>, writers: seq<nat>, ran: set<nat>, ok: seq<bool>,
                   written: map<nat, Bytes>, placed: set<nat>, done: set<nat>, k: nat)
    requires Writers(w, es, writers, |es|) && k < |writers| && k !in ran && OnlyDirectories(es, placed)
    requires Ran(w, es, writers, ran, ok, written, placed, done)
    ensures writers[k] < |es| && writers[k] !in done
    ensures var i := writers[k];
            && (Wrote(w, es[i]) ==>
                  Ran(w, es, writers, ran + {k}, ok[k := true], written[Cid(w, es[i]) := es[i].path], placed,
                      done + {i}))
            && (!w.works(WriteFile(es[i].path)) || !HasContent(w, es[i]) || !Reads(w, es[i]) ==>
                  Ran(w, es, writers, ran + {k}, ok[k := false], written, placed, done))
  {
    forall h | h in ran ensures Cid(w, es[writers[h]]) != Cid(w, es[writers[k]]) {
      WritersDiffer(w, es, writers, h, k);
    }
    WriterIsRegular(w, es, writers, k);
    hide First, Cid, Reads, HasContent;
  }

  predicate OnlyDirectories(es: seq<WalkEntry>, placed: set<nat>) {
    forall i :: i in placed ==> i < |es| && es[i].kind == Directory
  }

  // What is recorded under a content is the path of a file with it that is on the disk.
  predicate Knows(w: World, es: seq<WalkEntry>, known: map<nat, Bytes>, done: set<nat>) {
    forall cid :: cid in known ==> exists j :: j in done && KnownAs(w, es, cid, known[cid], j)
  }

  predicate KnownAs(w: World, es: seq<WalkEntry>, cid: nat, path: Bytes, j: nat) {
    j < |es| && es[j].kind == Regular && Cid(w, es[j]) == cid && es[j].path == path
  }

  lemma KnowMore(w: World, es: seq<WalkEntry>, known: map<nat, Bytes>, done: set<nat>, i: nat)
    requires Knows(w, es, known, done) && i < |es| && es[i].kind == Regular
    ensures Knows(w, es, known, done + {i}) && Knows(w, es, known[Cid(w, es[i]) := es[i].path], done + {i})
  {
    hide Cid;
    assert KnownAs(w, es, Cid(w, es[i]), es[i].path, i);
    forall cid | cid in known ensures exists j :: j in done + {i} && KnownAs(w, es, cid, known[cid], j) {
      var j :| j in done && KnownAs(w, es, cid, known[cid], j);
      assert j in done + {i};
    }
  }

  lemma KnowLess(w: World, es: seq<WalkEntry>, known: map<nat, Bytes>, done: set<nat>, i: nat)
    requires Knows(w, es, known, done) && i < |es|
    requires es[i].kind == Regular && Cid(w, es[i]) in known ==> known[Cid(w, es[i])] != es[i].path
    ensures Knows(w, es, known, done - {i})
  {
    hide Cid;
    forall cid | cid in known ensures exists j :: j in done - {i} && KnownAs(w, es, cid, known[cid], j) {
      var j :| j in done && KnownAs(w, es, cid, known[cid], j);
      assert j in done - {i};
    }
  }

  // Creates the file and reads the inode into it.
  method WriteOne(w: World, e: WalkEntry, clock: nat) returns (r: Option<Bytes>, clock': nat)
    requires Sound(w) && IsFile(w.fs, e.inode) && e.kind == Regular && Identified(w, e)
    ensures r.Some? ==> Wrote(w, e) && NodeOf(w, e) == Some(File(r.value))
    ensures r.None? ==> !w.works(WriteFile(e.path)) || !HasContent(w, e) || !Reads(w, e)
  {
    if !w.works(WriteFile(e.path)) || SlotOf(w.fs, e.inode).None? {
      return None, clock;
    }
    r, clock' := WriteRegular(w.fs, w.img, e.inode, w.answers, clock);
  }

  // The files of the writers that have run and succeeded are on the disk.
  ghost predicate Written(w: World, es: seq<WalkEntry>, writers: seq<nat>, ran: set<nat>, ok: seq<bool>, disk: Disk) {
    && |ok| == |writers|
    && forall k :: k in ran && k < |ok| && ok[k] ==> writers[k] < |es| && InPlace(w, es[writers[k]], disk)
  }

  lemma NoneWritten(w: World, es: seq<WalkEntry>, writers: seq<nat>, ok: seq<bool>, disk: Disk)
    requires |ok| == |writers|
    ensures Written(w, es, writers, {}, ok, disk)
  {
  }

  lemma OneMoreWritten(w: World, es: seq<WalkEntry>, writers: seq<nat>, ran: set<nat>, ok: seq<bool>, disk: Disk,
                       k: nat, bytes: Bytes)
    requires DistinctPaths(es) && Writers(w, es, writers, |es|) && k < |writers| && writers[k] < |es| && k !in ran
    requires Written(w, es, writers, ran, ok, disk) && NodeOf(w, es[writers[k]]) == Some(File(bytes))
    ensures Written(w, es, writers, ran + {k}, ok[k := true], disk[es[writers[k]].path := File(bytes)])
  {
    hide First, NodeOf;
    var disk' := disk[es[writers[k]].path := File(bytes)];
    forall h | h in ran && h < |ok| && ok[h] ensures InPlace(w, es[writers[h]], disk') {
      WritersDiffer(w, es, writers, h, k);
    }
  }

  lemma OneLessWritten(w: World, es: seq<WalkEntry>, writers: seq<nat>, ran: set<nat>, ok: seq<bool>, disk: Disk,
                       disk': Disk, k: nat)
    requires DistinctPaths(es) && Writers(w, es, writers, |es|) && k < |writers| && writers[k] < |es| && k !in ran
    requires Written(w, es, writers, ran, ok, disk) && SameElsewhere(disk, disk', es[writers[k]].path)
    ensures Written(w, es, writers, ran + {k}, ok[k := false], disk')
  {
    hide First, NodeOf;
    forall h | h in ran && h < |ok| && ok[h] ensures InPlace(w, es[writers[h]], disk') {
      WritersDiffer(w, es, writers, h, k);
      assert Same(disk, disk', es[writers[h]].path);
    }
  }

  lemma WrittenToTheEnd(w: World, es: seq<WalkEntry>, writers: seq<nat>, ran: set<nat>, ok: seq<bool>, disk: Disk)
    requires Written(w, es, writers, ran, ok, disk) && forall k :: 0 <= k < |writers| ==> k in ran
    ensures |ok| == |writers|
    ensures forall k :: 0 <= k < |ok| && ok[k] ==> writers[k] < |es| && InPlace(w, es[writers[k]], disk)
  {
  }

  // Writes the contents in whatever order the schedule has them finish, each once.
  method WriteContents(w: World, es: seq<WalkEntry>, writers: seq<nat>, order: seq<nat>, before: Disk,
                       ghost placed: set<nat>, ghost start: Disk)
    returns (written: map<nat, Bytes>, ok: seq<bool>, disk: Disk, clock: nat, ghost done: set<nat>,
             ghost log: seq<nat>)
    requires Sound(w) && Listed(w, es) && forall i :: 0 <= i < |es| ==> Identified(w, es[i])
    requires DistinctPaths(es) && Writers(w, es, writers, |es|) && Schedule(order, |writers|)
    requires OnlyDirectories(es, placed) && Holding(w, es, placed, start, before)
    ensures |ok| == |writers| && forall k :: 0 <= k < |ok| ==> writers[k] < |es|
    ensures forall k :: 0 <= k < |ok| && ok[k] ==>
              InPlace(w, es[writers[k]], disk) && DoneWith(w, es, writers[k], written)
    ensures AllRan(w, es, writers, ok, written, placed, done)
    ensures Holding(w, es, done, start, disk) && Knows(w, es, written, done)
    ensures |log| == |writers| && (forall j, k :: 0 <= j < k < |log| ==> log[j] != log[k])
  {
    hide First, Cid, Holding, Ran, Writers, NodeOf, Wrote, HasContent, Reads, Sound, Written, InPlace, Knows,
      SameElsewhere, Residue, Covers;
    ok := seq(|writers|, _ => false);
    written, disk, clock, done, log := map[], before, 0, placed, [];
    ghost var ran: set<nat> := {};
    NoneRan(w, es, writers, ok, placed);
    NoneWritten(w, es, writers, ok, disk);
    for j := 0 to |order|
      invariant |ok| == |writers| && |log| == j
      invariant forall k :: k in ran <==> exists h :: 0 <= h < j && order[h] == k
      invariant Ran(w, es, writers, ran, ok, written, placed, done)
      invariant Holding(w, es, done, start, disk) && Knows(w, es, written, done)
      invariant Written(w, es, writers, ran, ok, disk)
      invariant forall h :: 0 <= h < j ==> writers[order[h]] < |es| && log[h] == Cid(w, es[writers[order[h]]])
    {
      var k := order[j];
      RanOneMore(w, es, writers, ran, ok, written, placed, done, k);
      var i := writers[k];
      WriterIsRegular(w, es, writers, k);
      log := log + [Cid(w, es[i])];
      ran := ran + {k};
      var bytes: Option<Bytes>;
      bytes, clock := WriteOne(w, es[i], clock);
      if bytes.Some? {
        PlaceOne(w, es, done, start, disk, i);
        KnowMore(w, es, written, done, i);
        OneMoreWritten(w, es, writers, ran - {k}, ok, disk, k, bytes.value);
        disk := disk[es[i].path := File(bytes.value)];
        done := done + {i};
        written := written[Cid(w, es[i]) := es[i].path];
        ok := ok[k := true];
      } else {
        ghost var was := disk;
        disk := Residue(w, es[i].path, clock, disk);
        ResidueElsewhere(w, es[i].path, clock, was);
        LeaveOne(w, es, done, start, was, disk, i);
        assert done - {i} == done;
        OneLessWritten(w, es, writers, ran - {k}, ok, was, disk, k);
        ok := ok[k := false];
      }
      assert (ran - {k}) + {k} == ran;
    }
    forall j, k | 0 <= j < k < |log| ensures log[j] != log[k] {
      WritersDiffer(w, es, writers, order[j], order[k]);
    }
    forall k | 0 <= k < |writers| ensures k in ran {
      InSchedule(order, |writers|, k);
      var h :| 0 <= h < |order| && order[h] == k;
    }
    RanToTheEnd(w, es, writers, ran, ok, written, placed, done);
    WrittenToTheEnd(w, es, writers, ran, ok, disk);
  }

  lemma InSchedule(order: seq<nat>, n: nat, k: nat)
    requires Schedule(order, n) && k < n
    ensures k in order
  {
  }

  lemma ResidueElsewhere(w: World, path: Bytes, clock: nat, disk: Disk)
    ensures SameElsewhere(disk, Residue(w, path, clock, disk), path) && SameElsewhere(disk, disk, path)
  {
  }

  lemma NoneRan(w: World, es: seq<WalkEntry>, writers: seq<nat>, ok: seq<bool>, placed: set<nat>)
    requires |ok| == |writers|
    ensures Ran(w, es, writers, {}, ok, map[], placed, placed) && Knows(w, es, map[], placed)
  {
  }

  lemma WriterIsRegular(w: World, es: seq<WalkEntry>, writers: seq<nat>, k: nat)
    requires Writers(w, es, writers, |es|) && k < |writers|
    ensures writers[k] < |es| && es[writers[k]].kind == Regular
    ensures OpFor(w, es, writers[k], true) == OpFor(w, es, writers[k], false) == Some(WriteFile(es[writers[k]].path))
  {
  }

  // --- The last phase ------------------------------------------------------------------------------------------

  // With every writer done, an entry's writer is found by its content; it is the entry itself when that came first.
  lemma WriterFound(w: World, es: seq<WalkEntry>, writers: seq<nat>, ok: seq<bool>, written: map<nat, Bytes>,
                    placed: set<nat>, done: set<nat>, i: nat)
    requires DistinctPaths(es) && Writers(w, es, writers, |es|) && AllRan(w, es, writers, ok, written, placed, done)
    requires forall k :: 0 <= k < |ok| ==> ok[k]
    requires Sound(w) && Listed(w, es) && i < |es| && es[i].kind == Regular && Identified(w, es[i])
    requires Identified(w, es[Writer(w, es, i)])
    ensures Cid(w, es[i]) in written && written[Cid(w, es[i])] == es[Writer(w, es, i)].path
    ensures written[Cid(w, es[i])] == es[i].path <==> First(w, es, i)
    ensures First(w, es, i) ==> i in done && w.works(WriteFile(es[i].path))
    ensures HasContent(w, es[i])
    ensures Writer(w, es, i) in done && NodeOf(w, es[Writer(w, es, i)]) == NodeOf(w, es[i])
  {
    var j := Writer(w, es, i);
    hide First;
    assert j in writers;
    var k :| 0 <= k < |writers| && writers[k] == j;
    assert OneRan(w, es, writers[k], ok[k], written, done);
    SameIdSameFile(w, es[j], es[i]);
    if j < i {
      assert es[j].path != es[i].path;
    }
  }

  // What a link or a copy puts at entry i's path is entry i's own content: its writer's path is on the disk, and that
  // is what lies there.
  lemma SourceHolds(w: World, es: seq<WalkEntry>, done: set<nat>, start: Disk, disk: Disk, i: nat, j: nat)
    requires i < |es| && j < |es| && Holding(w, es, done, start, disk) && j in done
    requires NodeOf(w, es[j]) == NodeOf(w, es[i])
    ensures es[j].path in disk && NodeOf(w, es[i]) == Some(disk[es[j].path])
  {
  }

  // What holds after the last phase has passed the first n entries without a failure.
  ghost predicate Passed(w: World, es: seq<WalkEntry>, n: nat, hardlink: bool, start: Disk, disk: Disk,
                         done: set<nat>, s: Stats, directories: nat, writers: nat)
    requires n <= |es|
  {
    && Holding(w, es, done, start, disk)
    && (forall i :: 0 <= i < n && HasPlace(es[i].kind) ==> i in done)
    && (forall i :: 0 <= i < n ==> EntryWorks(w, es, i, hardlink))
    && s == Stats(directories, writers + (if hardlink then 0 else Count(w, es, n, Repeats)),
                  if hardlink then Count(w, es, n, Repeats) else 0, Count(w, es, n, Links), Count(w, es, n, Others), 0)
  }

  // One more entry: in place already, put in place, or skipped.
  lemma PassOne(w: World, es: seq<WalkEntry>, n: nat, hardlink: bool, start: Disk, disk: Disk, done: set<nat>,
                s: Stats, directories: nat, writers: nat)
    requires n < |es| && DistinctPaths(es) && EntryWorks(w, es, n, hardlink)
    requires Passed(w, es, n, hardlink, start, disk, done, s, directories, writers)
    ensures GroupOf(w, es, n).Directories? || GroupOf(w, es, n).Firsts? ==> n in done ==>
              Passed(w, es, n + 1, hardlink, start, disk, done, s, directories, writers)
    ensures GroupOf(w, es, n).Others? ==>
              Passed(w, es, n + 1, hardlink, start, disk, done, s.(skipped := s.skipped + 1), directories, writers)
    ensures GroupOf(w, es, n).Repeats? || GroupOf(w, es, n).Links? ==>
              && NodeOf(w, es[n]).Some?
              && Passed(w, es, n + 1, hardlink, start, disk[es[n].path := NodeOf(w, es[n]).value], done + {n},
                        if GroupOf(w, es, n).Links? then s.(symlinks := s.symlinks + 1)
                        else if hardlink then s.(hardlinks := s.hardlinks + 1)
                        else s.(files := s.files + 1), directories, writers)
  {
    hide Holding, First, Writer, OpWorks, Cid;
    if NodeOf(w, es[n]).Some? {
      PlaceOne(w, es, done, start, disk, n);
    }
  }

  // What the last phase is handed when nothing has failed so far.
  ghost predicate Ready(w: World, es: seq<WalkEntry>, hardlink: bool, known: map<nat, Bytes>, start: Disk,
                        before: Disk, s: Stats, writers: seq<nat>, ok: seq<bool>, placed: set<nat>, done: set<nat>)
  {
    && AllRan(w, es, writers, ok, known, placed, done) && (forall k :: 0 <= k < |ok| ==> ok[k])
    && Holding(w, es, done, start, before) && s == Stats(s.directories, |writers|, 0, 0, 0, 0)
    && forall i :: 0 <= i < |es| && es[i].kind == Directory ==> i in done && EntryWorks(w, es, i, hardlink)
  }

  // Entry n, at which the last phase has arrived without a failure.
  lemma Arrive(w: World, es: seq<WalkEntry>, n: nat, hardlink: bool, known: map<nat, Bytes>, start: Disk, before: Disk,
               disk: Disk, s0: Stats, s: Stats, writers: seq<nat>, ok: seq<bool>, placed: set<nat>, done0: set<nat>,
               done: set<nat>)
    requires Sound(w) && Listed(w, es) && forall i :: 0 <= i < |es| ==> Identified(w, es[i])
    requires DistinctPaths(es) && Writers(w, es, writers, |es|) && n < |es| && done0 <= done
    requires Ready(w, es, hardlink, known, start, before, s0, writers, ok, placed, done0)
    requires Passed(w, es, n, hardlink, start, disk, done, s, s0.directories, |writers|)
    ensures GroupOf(w, es, n).Directories? || GroupOf(w, es, n).Firsts? ==>
              n in done && EntryWorks(w, es, n, hardlink)
    ensures HasContent(w, es[n])
    ensures es[n].kind == Symlink ==> NodeOf(w, es[n]) == Some(Link(w.target(es[n].inode)))
    ensures es[n].kind == Regular ==>
              && Cid(w, es[n]) in known && known[Cid(w, es[n])] in disk
              && NodeOf(w, es[n]) == Some(disk[known[Cid(w, es[n])]])
              && known[Cid(w, es[n])] == es[Writer(w, es, n)].path
              && (known[Cid(w, es[n])] == es[n].path <==> First(w, es, n))
  {
    assert NodeOf(w, es[n]) == Some(Link(w.target(es[n].inode))) || es[n].kind != Symlink;
    hide First, AllRan, Holding, Cid, Writers, NodeOf, Wrote, Sound;
    if es[n].kind == Regular {
      WriterFound(w, es, writers, ok, known, placed, done0, n);
      SourceHolds(w, es, done, start, disk, n, Writer(w, es, n));
    }
  }

  function RepeatOp(from: Bytes, to: Bytes, hardlink: bool): Op {
    if hardlink then HardLink(from, to) else CopyFile(from, to)
  }

  // Two regular entries with one content.
  predicate Twins(w: World, es: seq<WalkEntry>, i: nat, j: nat) {
    i < |es| && j < |es| && es[i].kind == Regular && es[j].kind == Regular && Cid(w, es[i]) == Cid(w, es[j])
  }

  // Something of an entry's own went wrong: an operation on its own path, or the reading of its own file.
  ghost predicate Troubled(w: World, es: seq<WalkEntry>, i: nat, hardlink: bool)
    requires i < |es|
  {
    match es[i].kind
    case Directory => !w.works(MakeDir(es[i].path))
    case Symlink => !w.works(MakeLink(es[i].path))
    case Regular =>
      || !Wrote(w, es[i]) || !Reads(w, es[i])
      || exists j: nat :: Twins(w, es, i, j) && !w.works(RepeatOp(es[j].path, es[i].path, hardlink))
    case _ => false
  }

  // What holds after the last phase has passed the first n entries, whatever failed.
  ghost predicate Pressed(w: World, es: seq<WalkEntry>, n: nat, hardlink: bool, known: map<nat, Bytes>, start: Disk,
                          disk: Disk, done0: set<nat>, done: set<nat>)
  {
    && Holding(w, es, done, start, disk) && Knows(w, es, known, done)
    && (forall i :: 0 <= i < |es| && (i >= n || es[i].kind == Directory) ==> (i in done <==> i in done0))
    && (forall i :: i in done && i < |es| && First(w, es, i) ==> Wrote(w, es[i]))
    && forall i :: 0 <= i < n && i < |es| && Misses(es[i], false) && i !in done ==> Troubled(w, es, i, hardlink)
  }

  // What the writers leave: of regular entries, only first ones are done, and those were written.
  ghost predicate Settled(w: World, es: seq<WalkEntry>, done: set<nat>) {
    forall i :: i in done && i < |es| && es[i].kind == Regular ==> First(w, es, i) && Wrote(w, es[i])
  }

  lemma SettledAfter(w: World, es: seq<WalkEntry>, writers: seq<nat>, ok: seq<bool>, written: map<nat, Bytes>,
                     placed: set<nat>, done: set<nat>)
    requires Writers(w, es, writers, |es|) && AllRan(w, es, writers, ok, written, placed, done)
    requires OnlyDirectories(es, placed)
    ensures Settled(w, es, done)
    ensures forall i :: 0 <= i < |es| && es[i].kind == Directory ==> (i in done <==> i in placed)
  {
    hide First;
    forall i | i in done && i < |es| && es[i].kind == Regular ensures First(w, es, i) && Wrote(w, es[i]) {
      var k :| 0 <= k < |writers| && ok[k] && writers[k] == i;
      assert OneRan(w, es, writers[k], ok[k], written, done);
    }
    forall i | 0 <= i < |es| && es[i].kind == Directory && i in done ensures i in placed {
      if i !in placed {
        var k :| 0 <= k < |writers| && ok[k] && writers[k] == i;
        WriterIsRegular(w, es, writers, k);
      }
    }
  }

  lemma NonePressed(w: World, es: seq<WalkEntry>, hardlink: bool, known: map<nat, Bytes>, start: Disk, disk: Disk,
                    done: set<nat>)
    requires Holding(w, es, done, start, disk) && Knows(w, es, known, done) && Settled(w, es, done)
    ensures Pressed(w, es, 0, hardlink, known, start, disk, done, done)
  {
    hide Holding, Knows, Wrote, Cid;
  }

  lemma PressSkip(w: World, es: seq<WalkEntry>, n: nat, hardlink: bool, known: map<nat, Bytes>, start: Disk,
                  disk: Disk, done0: set<nat>, done: set<nat>)
    requires Pressed(w, es, n, hardlink, known, start, disk, done0, done) && n < |es|
    requires !Misses(es[n], false) || n in done
    ensures Pressed(w, es, n + 1, hardlink, known, start, disk, done0, done)
  {
    hide Holding, Knows, Wrote, First, Troubled, Misses;
  }

  lemma PressOn(w: World, es: seq<WalkEntry>, n: nat, hardlink: bool, known: map<nat, Bytes>, known': map<nat, Bytes>,
                start: Disk, disk: Disk, done0: set<nat>, done: set<nat>)
    requires Pressed(w, es, n, hardlink, known, start, disk, done0, done) && n < |es| && DistinctPaths(es)
    requires NodeOf(w, es[n]).Some? && es[n].kind != Directory && (First(w, es, n) ==> Wrote(w, es[n]))
    requires known' == known || (es[n].kind == Regular && known' == known[Cid(w, es[n]) := es[n].path])
    ensures Pressed(w, es, n + 1, hardlink, known', start, disk[es[n].path := NodeOf(w, es[n]).value], done0,
                    done + {n})
  {
    PlaceOne(w, es, done, start, disk, n);
    if es[n].kind == Regular {
      KnowMore(w, es, known, done, n);
    } else {
      KnowAlso(w, es, known, done, n);
    }
    hide Holding, Knows, Wrote, First, Troubled, Misses, Cid, NodeOf;
  }

  lemma KnowAlso(w: World, es: seq<WalkEntry>, known: map<nat, Bytes>, done: set<nat>, i: nat)
    requires Knows(w, es, known, done)
    ensures Knows(w, es, known, done + {i})
  {
    hide KnownAs;
    forall cid | cid in known ensures exists j :: j in done + {i} && KnownAs(w, es, cid, known[cid], j) {
      var j :| j in done && KnownAs(w, es, cid, known[cid], j);
      assert j in done + {i};
    }
  }

  lemma PressLost(w: World, es: seq<WalkEntry>, n: nat, hardlink: bool, known: map<nat, Bytes>, start: Disk,
                  disk: Disk, disk': Disk, done0: set<nat>, done: set<nat>)
    requires Pressed(w, es, n, hardlink, known, start, disk, done0, done) && n < |es| && DistinctPaths(es)
    requires es[n].kind == Regular && Cid(w, es[n]) in known ==> known[Cid(w, es[n])] != es[n].path
    requires SameElsewhere(disk, disk', es[n].path) && es[n].kind != Directory && Troubled(w, es, n, hardlink)
    ensures Pressed(w, es, n + 1, hardlink, known, start, disk', done0, done - {n})
  {
    LeaveOne(w, es, done, start, disk, disk', n);
    KnowLess(w, es, known, done, n);
    hide Holding, Knows, Wrote, First, Troubled, Misses, Cid;
  }

  // The entry whose path is recorded for entry n's content: on the disk, with n's own bytes, and before n if it is not
  // n itself.
  lemma RecordedIs(w: World, es: seq<WalkEntry>, n: nat, hardlink: bool, known: map<nat, Bytes>, start: Disk,
                   disk: Disk, done0: set<nat>, done: set<nat>) returns (j: nat)
    requires Sound(w) && Listed(w, es) && forall i :: 0 <= i < |es| ==> Identified(w, es[i])
    requires DistinctPaths(es) && Settled(w, es, done0)
    requires Pressed(w, es, n, hardlink, known, start, disk, done0, done) && n < |es| && es[n].kind == Regular
    requires Cid(w, es[n]) in known
    ensures Twins(w, es, n, j) && j in done && es[j].path == known[Cid(w, es[n])] && es[j].path in disk
    ensures NodeOf(w, es[n]) == Some(disk[es[j].path])
    ensures es[j].path == es[n].path ==> n in done
    ensures es[j].path != es[n].path ==> !First(w, es, n)
  {
    j := RecordedAs(w, es, known, done, n);
    TwinsAlike(w, es, n, j, start, disk, done);
    hide Cid, Knows, Wrote, Troubled, Misses, Holding, Sound, NodeOf, First, DistinctPaths, Settled, Listed, Twins;
    SamePath(es, n, j);
    if j != n {
      TwinComesFirst(w, es, n, j, done0);
    }
  }

  lemma SamePath(es: seq<WalkEntry>, i: nat, j: nat)
    requires DistinctPaths(es) && i < |es| && j < |es|
    ensures es[i].path == es[j].path <==> i == j
  {
  }

  lemma TwinComesFirst(w: World, es: seq<WalkEntry>, n: nat, j: nat, done0: set<nat>)
    requires Twins(w, es, n, j) && j != n && Settled(w, es, done0) && (j < n || j in done0)
    ensures !First(w, es, n)
  {
    hide Cid, Wrote;
  }

  lemma RecordedAs(w: World, es: seq<WalkEntry>, known: map<nat, Bytes>, done: set<nat>, n: nat) returns (j: nat)
    requires Knows(w, es, known, done) && n < |es| && es[n].kind == Regular && Cid(w, es[n]) in known
    ensures j < |es| && Twins(w, es, n, j) && j in done && es[j].path == known[Cid(w, es[n])]
  {
    hide Cid;
    j :| j in done && KnownAs(w, es, Cid(w, es[n]), known[Cid(w, es[n])], j);
  }

  lemma TwinsAlike(w: World, es: seq<WalkEntry>, n: nat, j: nat, start: Disk, disk: Disk, done: set<nat>)
    requires Sound(w) && Listed(w, es) && forall i :: 0 <= i < |es| ==> Identified(w, es[i])
    requires Twins(w, es, n, j) && Holding(w, es, done, start, disk) && j in done
    ensures es[j].path in disk && NodeOf(w, es[n]) == Some(disk[es[j].path])
  {
    assert InPlace(w, es[j], disk);
    SameIdSameFile(w, es[j], es[n]);
  }

  // Nothing has failed so far: entry n is passed too, or its operation fails and the extraction does not go through.
  lemma Onward(w: World, es: seq<WalkEntry>, n: nat, hardlink: bool, known: map<nat, Bytes>, start: Disk, before: Disk,
               disk: Disk, s0: Stats, s: Stats, writers: seq<nat>, ok: seq<bool>, placed: set<nat>, done0: set<nat>,
               done: set<nat>)
    requires Sound(w) && Listed(w, es) && forall i :: 0 <= i < |es| ==> Identified(w, es[i])
    requires DistinctPaths(es) && Writers(w, es, writers, |es|) && n < |es| && done0 <= done
    requires Ready(w, es, hardlink, known, start, before, s0, writers, ok, placed, done0)
    requires Passed(w, es, n, hardlink, start, disk, done, s, s0.directories, |writers|)
    ensures es[n].kind == Regular ==> Cid(w, es[n]) in known && known[Cid(w, es[n])] in disk
    ensures es[n].kind == Directory || (es[n].kind == Regular && known[Cid(w, es[n])] == es[n].path) ==>
              Passed(w, es, n + 1, hardlink, start, disk, done, s, s0.directories, |writers|)
    ensures es[n].kind == Regular && known[Cid(w, es[n])] != es[n].path ==>
              if w.works(RepeatOp(known[Cid(w, es[n])], es[n].path, hardlink)) then
                Passed(w, es, n + 1, hardlink, start, disk[es[n].path := disk[known[Cid(w, es[n])]]], done + {n},
                       if hardlink then s.(hardlinks := s.hardlinks + 1) else s.(files := s.files + 1),
                       s0.directories, |writers|)
              else !Goes(w, es, hardlink)
    ensures es[n].kind == Symlink ==>
              if w.works(MakeLink(es[n].path)) then
                Passed(w, es, n + 1, hardlink, start, disk[es[n].path := Link(w.target(es[n].inode))], done + {n},
                       s.(symlinks := s.symlinks + 1), s0.directories, |writers|)
              else !Goes(w, es, hardlink)
    ensures !HasPlace(es[n].kind) ==>
              Passed(w, es, n + 1, hardlink, start, disk, done, s.(skipped := s.skipped + 1), s0.directories,
                     |writers|)
  {
    hide First, Writer, Goes, Passed, Ready, Holding, Cid, Writers, NodeOf, Sound, Reads, HasContent;
    Arrive(w, es, n, hardlink, known, start, before, disk, s0, s, writers, ok, placed, done0, done);
    if EntryWorks(w, es, n, hardlink) {
      PassOne(w, es, n, hardlink, start, disk, done, s, s0.directories, |writers|);
    } else {
      OneFails(w, es, n, hardlink);
    }
  }

  // Puts a repeated content at an entry's path: a link to its first path or a copy of what lies there, or, if no
  // write of it succeeded, a write of its own.
  method PlaceRepeat(w: World, e: WalkEntry, known: map<nat, Bytes>, hardlink: bool, before: Disk, s0: Stats,
                     clock: nat)
    returns (failed: Option<Op>, written: map<nat, Bytes>, disk: Disk, s: Stats, clock': nat)
    requires Sound(w) && IsFile(w.fs, e.inode) && e.kind == Regular && Identified(w, e)
    ensures s.errors == s0.errors
    ensures failed.Some? ==> written == known && SameElsewhere(before, disk, e.path) && s == s0
    ensures Cid(w, e) !in known && failed.Some? ==> !Wrote(w, e) || !Reads(w, e)
    ensures Cid(w, e) in known && known[Cid(w, e)] !in before ==> failed.Some?
    ensures Cid(w, e) !in known && failed.None? ==>
              && Wrote(w, e) && NodeOf(w, e).Some? && disk == before[e.path := NodeOf(w, e).value]
              && written == known[Cid(w, e) := e.path] && s == s0.(files := s0.files + 1)
    ensures Cid(w, e) in known && known[Cid(w, e)] in before ==>
              var from := known[Cid(w, e)];
              var op := RepeatOp(from, e.path, hardlink);
              && written == known
              && (failed.Some? <==> !w.works(op))
              && (failed.None? ==>
                    && disk == before[e.path := before[from]]
                    && s == if hardlink then s0.(hardlinks := s0.hardlinks + 1) else s0.(files := s0.files + 1))
  {
    var cid := Cid(w, e);
    written, disk, s, clock' := known, before, s0, clock;
    if cid in known {
      var op := RepeatOp(known[cid], e.path, hardlink);
      if !w.works(op) || known[cid] !in before {
        if !hardlink {
          disk := Residue(w, e.path, clock, disk);
        }
        return Some(op), written, disk, s, clock';
      }
      disk := disk[e.path := disk[known[cid]]];
      s := if hardlink then s.(hardlinks := s.hardlinks + 1) else s.(files := s.files + 1);
      return None, written, disk, s, clock';
    }
    var bytes: Option<Bytes>;
    bytes, clock' := WriteOne(w, e, clock');
    if bytes.None? {
      disk := Residue(w, e.path, clock', disk);
      return Some(WriteFile(e.path)), written, disk, s, clock';
    }
    written, disk, s := written[cid := e.path], disk[e.path := File(bytes.value)], s.(files := s.files + 1);
    failed := None;
  }

  // Links, copies, symlinks and what is skipped, in walk order.
  method Finish(w: World, es: seq<WalkEntry>, known: map<nat, Bytes>, keepGoing: bool, hardlink: bool, before: Disk,
                s0: Stats, clock: nat, ghost writers: seq<nat>, ghost ok: seq<bool>, ghost placed: set<nat>,
                ghost done0: set<nat>, ghost start: Disk)
    returns (stop: Option<ExtractError>, s: Stats, disk: Disk, ghost done: set<nat>)
    requires Sound(w) && Listed(w, es) && forall i :: 0 <= i < |es| ==> Identified(w, es[i])
    requires DistinctPaths(es) && Writers(w, es, writers, |es|)
    requires Holding(w, es, done0, start, before) && Knows(w, es, known, done0) && Settled(w, es, done0)
    requires s0.errors > 0 ==> !Goes(w, es, hardlink)
    requires s0.errors == 0 ==> Ready(w, es, hardlink, known, start, before, s0, writers, ok, placed, done0)
    ensures stop.Some? || s.errors > 0 ==> !Goes(w, es, hardlink)
    ensures stop.Some? ==> !keepGoing
    ensures stop.None? ==>
      && (exists known' :: Pressed(w, es, |es|, hardlink, known', start, disk, done0, done))
      && s.errors == s0.errors + |Lost(es, |es|, done, false)|
    ensures stop.None? && s.errors == 0 ==>
      s0.errors == 0 && Passed(w, es, |es|, hardlink, start, disk, done, s, s0.directories, |writers|)
  {
    hide First, Writer, Goes, Passed, Ready, Holding, Cid, Writers, NodeOf, Sound, Reads, HasContent, Pressed, Knows,
      Settled, Lost, Misses, Troubled, SameElsewhere, Wrote, EntryWorks, OpWorks, GroupOf;
    var written: map<nat, Bytes> := known;
    var clock' := clock;
    s, disk, done := s0, before, done0;
    NonePressed(w, es, hardlink, known, start, disk, done);
    NoneLost(es, done);
    if s0.errors == 0 {
      NonePassed(w, es, hardlink, known, start, disk, done, s0, writers, ok, placed);
    }
    for n := 0 to |es|
      invariant Pressed(w, es, n, hardlink, written, start, disk, done0, done)
      invariant s.errors == s0.errors + |Lost(es, n, done, false)|
      invariant s.errors > 0 ==> !Goes(w, es, hardlink)
      invariant s.errors == 0 ==>
        && s0.errors == 0 && written == known && done0 <= done
        && Passed(w, es, n, hardlink, start, disk, done, s, s0.directories, |writers|)
    {
      var e := es[n];
      if s.errors == 0 {
        Onward(w, es, n, hardlink, known, start, before, disk, s0, s, writers, ok, placed, done0, done);
      }
      var failed: Option<Op> := None;
      ghost var was, known', done' := disk, written, done;
      match e.kind {
        case Directory =>
          Skipped(w, es, n, hardlink, written, start, disk, done0, done);
          continue;
        case Regular =>
          ghost var j := n;
          if Cid(w, e) in written {
            j := RecordedIs(w, es, n, hardlink, written, start, disk, done0, done);
          }
          if Cid(w, e) in written && written[Cid(w, e)] == e.path {
            Skipped(w, es, n, hardlink, written, start, disk, done0, done);
            continue;
          }
          failed, written, disk, s, clock' := PlaceRepeat(w, e, written, hardlink, disk, s, clock');
          if failed.Some? {
            FileTroubled(w, es, n, j, hardlink, known');
          }
        case Symlink =>
          LinkNode(w, e);
          ResidueElsewhere(w, e.path, 0, disk);
          if w.works(MakeLink(e.path)) {
            s := s.(symlinks := s.symlinks + 1);
            disk := disk[e.path := Link(w.target(e.inode))];
          } else {
            failed := Some(MakeLink(e.path));
            LinkTroubled(w, es, n, hardlink);
          }
        case _ =>
          Skipped(w, es, n, hardlink, written, start, disk, done0, done);
          s := s.(skipped := s.skipped + 1);
          continue;
      }
      HasMisses(e);
      if failed.Some? {
        PressLost(w, es, n, hardlink, known', start, was, disk, done0, done);
        done := done - {n};
        if !keepGoing {
          return Some(OperationFailed(failed.value)), s, disk, done;
        }
        s := s.(errors := s.errors + 1);
      } else {
        if First(w, es, n) {
          FirstIsRegular(w, es, n);
        }
        PressOn(w, es, n, hardlink, known', written, start, was, done0, done);
        done := done + {n};
      }
      LostAfter(es, n, done', done, false);
    }
    stop := None;
  }

  lemma NoneLost(es: seq<WalkEntry>, done: set<nat>)
    ensures Lost(es, 0, done, false) == {}
  {
  }

  lemma Skipped(w: World, es: seq<WalkEntry>, n: nat, hardlink: bool, known: map<nat, Bytes>, start: Disk,
                disk: Disk, done0: set<nat>, done: set<nat>)
    requires Pressed(w, es, n, hardlink, known, start, disk, done0, done) && n < |es|
    requires es[n].kind == Directory || !HasPlace(es[n].kind) || n in done
    ensures Pressed(w, es, n + 1, hardlink, known, start, disk, done0, done)
    ensures |Lost(es, n + 1, done, false)| == |Lost(es, n, done, false)|
  {
    PressSkip(w, es, n, hardlink, known, start, disk, done0, done);
    LostAfter(es, n, done, done, false);
  }

  lemma HasMisses(e: WalkEntry)
    ensures e.kind == Regular || e.kind == Symlink <==> Misses(e, false)
  {
  }

  lemma LinkNode(w: World, e: WalkEntry)
    requires e.kind == Symlink
    ensures NodeOf(w, e) == Some(Link(w.target(e.inode)))
  {
  }

  lemma FirstIsRegular(w: World, es: seq<WalkEntry>, n: nat)
    requires n < |es| && First(w, es, n)
    ensures es[n].kind == Regular
  {
  }

  lemma LinkTroubled(w: World, es: seq<WalkEntry>, n: nat, hardlink: bool)
    requires n < |es| && es[n].kind == Symlink && !w.works(MakeLink(es[n].path))
    ensures Troubled(w, es, n, hardlink)
  {
  }

  lemma FileTroubled(w: World, es: seq<WalkEntry>, n: nat, j: nat, hardlink: bool, known: map<nat, Bytes>)
    requires n < |es| && es[n].kind == Regular
    requires Cid(w, es[n]) in known ==>
               Twins(w, es, n, j) && !w.works(RepeatOp(es[j].path, es[n].path, hardlink))
    requires Cid(w, es[n]) !in known ==> !Wrote(w, es[n]) || !Reads(w, es[n])
    ensures Troubled(w, es, n, hardlink)
  {
    hide Wrote, Reads, Cid;
  }

  lemma NonePassed(w: World, es: seq<WalkEntry>, hardlink: bool, known: map<nat, Bytes>, start: Disk, disk: Disk,
                   done: set<nat>, s: Stats, writers: seq<nat>, ok: seq<bool>, placed: set<nat>)
    requires Ready(w, es, hardlink, known, start, disk, s, writers, ok, placed, done)
    ensures Passed(w, es, 0, hardlink, start, disk, done, s, s.directories, |writers|)
  {
    hide Holding;
  }

  // --- The whole extraction ------------------------------------------------------------------------------------

  // What a successful extraction reports.
  ghost predicate Reported(w: World, es: seq<WalkEntry>, hardlink: bool, s: Stats) {
    && s.errors == 0
    && s.directories + s.files + s.hardlinks + s.symlinks + s.skipped == |es|
    && s.directories == Count(w, es, |es|, Directories) && s.symlinks == Count(w, es, |es|, Links)
    && s.files
       == (if hardlink then |Contents(w, es, |es|)| else Count(w, es, |es|, Firsts) + Count(w, es, |es|, Repeats))
    && s.hardlinks == if hardlink then Count(w, es, |es|, Repeats) else 0
  }

  // Entries with a place that are not there.
  function Missing(es: seq<WalkEntry>, done: set<nat>): set<nat> {
    set i | 0 <= i < |es| && HasPlace(es[i].kind) && i !in done
  }

  lemma MissingIsLost(es: seq<WalkEntry>, done: set<nat>)
    ensures |Missing(es, done)| == |Lost(es, |es|, done, true)| + |Lost(es, |es|, done, false)|
  {
    assert Missing(es, done) == Lost(es, |es|, done, true) + Lost(es, |es|, done, false);
    assert Lost(es, |es|, done, true) !! Lost(es, |es|, done, false);
  }

  lemma SameDirectories(es: seq<WalkEntry>, done: set<nat>, done': set<nat>)
    requires forall i :: 0 <= i < |es| && es[i].kind == Directory ==> (i in done <==> i in done')
    ensures Lost(es, |es|, done, true) == Lost(es, |es|, done', true)
  {
  }

  // A first write that failed: it does not work, or its file cannot be read.
  ghost predicate WriteFailed(w: World, es: seq<WalkEntry>, i: nat) {
    i < |es| && First(w, es, i) && (!Wrote(w, es[i]) || !Reads(w, es[i]))
  }

  // What an extraction that keeps going leaves: `done` is in place, an entry that is not had trouble of its own, and no
  // path but those of entries has changed.
  ghost predicate Isolated(w: World, es: seq<WalkEntry>, hardlink: bool, before: Disk, disk: Disk, done: set<nat>) {
    && Holding(w, es, done, before, disk)
    && forall i :: i in Missing(es, done) ==> Troubled(w, es, i, hardlink)
  }

  lemma IsolatedAfter(w: World, es: seq<WalkEntry>, hardlink: bool, start: Disk, disk: Disk, done0: set<nat>,
                      done: set<nat>, failed: set<nat>)
    requires exists known :: Pressed(w, es, |es|, hardlink, known, start, disk, done0, done)
    requires forall i :: 0 <= i < |es| && es[i].kind == Directory && i !in done0 ==> !w.works(MakeDir(es[i].path))
    requires forall i :: i in failed ==> WriteFailed(w, es, i)
    ensures Isolated(w, es, hardlink, start, disk, done)
    ensures forall i :: i in failed ==> i < |es| && (!Wrote(w, es[i]) ==> i in Missing(es, done))
    ensures Lost(es, |es|, done, true) == Lost(es, |es|, done0, true)
  {
    hide Holding, Knows, Wrote, Reads, First;
    forall i | i in failed && !Wrote(w, es[i]) ensures i in Missing(es, done) {
      FirstIsRegular(w, es, i);
    }
  }

  // Counts what the writes came to, and stops at the first that failed unless told to keep going.
  method CountWrites(w: World, es: seq<WalkEntry>, writers: seq<nat>, ok: seq<bool>, keepGoing: bool, hardlink: bool,
                     before: nat)
    returns (stop: Option<ExtractError>, files: nat, errors: nat, ghost failed: set<nat>)
    requires Writers(w, es, writers, |es|) && |ok| == |writers| && (before > 0 ==> !Goes(w, es, hardlink))
    requires forall k :: 0 <= k < |ok| && !ok[k] ==> !Goes(w, es, hardlink) && WriteFailed(w, es, writers[k])
    ensures stop.Some? ==> !keepGoing && !Goes(w, es, hardlink)
    ensures stop.None? ==>
              && errors == before + |failed| && (errors > 0 ==> !Goes(w, es, hardlink))
              && (forall i :: i in failed ==> WriteFailed(w, es, i))
              && (errors == 0 ==> files == |ok| && forall k :: 0 <= k < |ok| ==> ok[k])
  {
    hide Goes, WriteFailed, Writers;
    files, errors, failed := 0, before, {};
    for k := 0 to |ok|
      invariant errors == before + |failed| && (errors > 0 ==> !Goes(w, es, hardlink))
      invariant forall i :: i in failed ==> WriteFailed(w, es, i) && exists h :: 0 <= h < k && writers[h] == i
      invariant errors == 0 ==> files == k && forall h :: 0 <= h < k ==> ok[h]
    {
      if ok[k] {
        files := files + 1;
        continue;
      }
      if !keepGoing {
        OneWriter(w, es, writers, k);
        return Some(OperationFailed(WriteFile(es[writers[k]].path))), files, errors, failed;
      }
      OneWriter(w, es, writers, k);
      errors := errors + 1;
      failed := failed + {writers[k]};
    }
    stop := None;
  }

  lemma OneWriter(w: World, es: seq<WalkEntry>, writers: seq<nat>, k: nat)
    requires Writers(w, es, writers, |es|) && k < |writers|
    ensures writers[k] < |es| && forall h :: 0 <= h < k ==> writers[h] != writers[k]
  {
  }

  // Succeeds when everything asked for is there, works and can be read, and not when something asked for is missing or
  // does not work, whatever order the writes finish in. On success every entry is on the disk, a file with the bytes of
  // its own inode, each content was written once, and the counts add up. Told to keep going, it stops early only at a
  // file without a content; otherwise every entry without trouble of its own is in place, and what it reports is the
  // entries that are not plus the first writes that failed: a file that cannot be written counts twice.
  method ExtractAll(w: World, es: seq<WalkEntry>, keepGoing: bool, hardlink: bool, schedule: nat -> seq<nat>,
                    before: Disk)
    returns (r: Result<Stats, ExtractError>, disk: Disk, ghost log: seq<nat>, ghost done: set<nat>,
             ghost failed: set<nat>)
    requires Sound(w) && Listed(w, es) && DistinctPaths(es) && forall n :: Schedule(schedule(n), n)
    ensures Goes(w, es, hardlink) ==> r.Ok?
    ensures r.Ok? ==> AllWork(w, es, hardlink)
    ensures r.Ok? ==> Delivered(w, es, before, disk) && Reported(w, es, hardlink, r.value)
    ensures r.Ok? ==> |log| == |Contents(w, es, |es|)| && forall j, k :: 0 <= j < k < |log| ==> log[j] != log[k]
    ensures keepGoing && (r.Ok? || !r.error.NoContent?) ==>
              && Isolated(w, es, hardlink, before, disk, done)
              && (r.Err? ==> r.error == EntriesFailed(|Missing(es, done)| + |failed|))
              && forall i :: i in failed ==> WriteFailed(w, es, i) && (!Wrote(w, es[i]) ==> i in Missing(es, done))
  {
    hide First, Writer, Goes, AllWork, Passed, AllRan, Holding, Cid, Writers, Contents, Delivered, Ready, Sound,
      Settled, Pressed, Knows, Wrote, Lost, Missing, Isolated, Reads, Troubled, WriteFailed, InPlace, Reported,
      Schedule;
    log, done, failed := [], {}, {};
    var stop: Option<ExtractError>, made: nat, errors: nat;
    ghost var placed;
    stop, made, errors, disk, placed := MakeDirectories(w, es, keepGoing, hardlink, before);
    if stop.Some? {
      return Err(stop.value), disk, log, done, failed;
    }
    var picked := PickWriters(w, es, hardlink);
    if picked.Err? {
      return Err(picked.error), disk, log, done, failed;
    }
    var writers := picked.value;
    var written, ok, clock;
    written, ok, disk, clock, done, log := WriteContents(w, es, writers, schedule(|writers|), disk, placed, before);
    WritesMatter(w, es, writers, ok, written, placed, done, hardlink);
    SettledAfter(w, es, writers, ok, written, placed, done);
    SameDirectories(es, placed, done);
    var files;
    stop, files, errors, failed := CountWrites(w, es, writers, ok, keepGoing, hardlink, errors);
    if stop.Some? {
      return Err(stop.value), disk, log, done, failed;
    }
    if errors == 0 {
      ReadyToFinish(w, es, hardlink, written, before, disk, Stats(made, files, 0, 0, 0, 0), writers, ok, placed, done);
    }
    var s;
    ghost var done0 := done;
    stop, s, disk, done := Finish(w, es, written, keepGoing, hardlink, disk, Stats(made, files, 0, 0, 0, errors),
                                  clock, writers, ok, placed, done0, before);
    if stop.Some? {
      return Err(stop.value), disk, log, done, failed;
    }
    IsolatedAfter(w, es, hardlink, before, disk, done0, done, failed);
    MissingIsLost(es, done);
    if s.errors > 0 {
      return Err(EntriesFailed(s.errors)), disk, log, done, failed;
    }
    FinishedWell(w, es, hardlink, before, disk, done, s, made, |writers|);
    return Ok(s), disk, log, done, failed;
  }

  // A write that failed is one the extraction needed.
  lemma WritesMatter(w: World, es: seq<WalkEntry>, writers: seq<nat>, ok: seq<bool>, written: map<nat, Bytes>,
                     placed: set<nat>, done: set<nat>, hardlink: bool)
    requires Writers(w, es, writers, |es|) && AllRan(w, es, writers, ok, written, placed, done)
    ensures forall k :: 0 <= k < |writers| ==> writers[k] < |es|
    ensures |ok| == |writers|
    ensures forall k :: 0 <= k < |ok| && !ok[k] ==> !Goes(w, es, hardlink) && WriteFailed(w, es, writers[k])
  {
    forall k | 0 <= k < |ok| && !ok[k] ensures !Goes(w, es, hardlink) && WriteFailed(w, es, writers[k]) {
      WriterIsRegular(w, es, writers, k);
      assert OneRan(w, es, writers[k], ok[k], written, done);
      OneFails(w, es, writers[k], hardlink);
    }
  }

  lemma ReadyToFinish(w: World, es: seq<WalkEntry>, hardlink: bool, known: map<nat, Bytes>, start: Disk, before: Disk,
                      s: Stats, writers: seq<nat>, ok: seq<bool>, placed: set<nat>, done: set<nat>)
    requires AllRan(w, es, writers, ok, known, placed, done) && forall k :: 0 <= k < |ok| ==> ok[k]
    requires Holding(w, es, done, start, before) && s == Stats(s.directories, |writers|, 0, 0, 0, 0)
    requires forall i :: i in placed <==> 0 <= i < |es| && es[i].kind == Directory
    requires forall i :: 0 <= i < |es| && es[i].kind == Directory ==> EntryWorks(w, es, i, hardlink)
    ensures Ready(w, es, hardlink, known, start, before, s, writers, ok, placed, done)
  {
    hide Holding, EntryWorks;
  }

  lemma FinishedWell(w: World, es: seq<WalkEntry>, hardlink: bool, start: Disk, disk: Disk, done: set<nat>, s: Stats,
                     directories: nat, writers: nat)
    requires Passed(w, es, |es|, hardlink, start, disk, done, s, directories, writers)
    requires directories == Count(w, es, |es|, Directories)
    requires writers == Count(w, es, |es|, Firsts) == |Contents(w, es, |es|)|
    ensures AllWork(w, es, hardlink) && Delivered(w, es, start, disk) && Reported(w, es, hardlink, s)
  {
    hide Holding, First, Writer, EntryWorks, Cid, Delivered, Contents;
    AllPlaced(w, es, done, start, disk);
    GroupsPartition(w, es, |es|);
  }

  // A walked tree is fit for extraction: its paths differ and its inodes are of the kinds it says.
  lemma WalkIsExtractable(w: World, t: Tree)
    requires WellFormed(t) && t.kinds == w.fs.kinds
    ensures DistinctPaths(WalkSpec(t)) && Listed(w, WalkSpec(t))
  {
    DirOrder.WalkedPathsDiffer(t);
    RootIsReached(t);
    var walk := WalkSpec(t);
    forall i | 0 <= i < |walk| ensures walk[i].inode < |t.kinds| && walk[i].kind == t.kinds[walk[i].inode] {
      if i > 0 {
        assert walk[i] in WalkFrom(t, 0, [], DirTree.First(t, 0));
        DirWalk.WalkedIsListed(t, 0, [], DirTree.First(t, 0), walk[i]);
      }
    }
  }
}
