/** Laying files out: a stretch of chunks for each file that is not shared, in inode order, then one for each group. */
module ChunkLayout {
  import opened Common
  import opened ChunkMap
  import opened InodeTable
  import opened FileRead

  function Flat(lists: seq<seq<Chunk>>): seq<Chunk> {
    if lists == [] then [] else Flat(lists[..|lists| - 1]) + lists[|lists| - 1]
  }

  // Where each stretch starts, and where the last one ends.
  function Starts(lists: seq<seq<Chunk>>): (starts: seq<nat>)
    ensures |starts| == |lists| + 1
  {
    seq(|lists| + 1, s requires 0 <= s <= |lists| => |Flat(lists[..s])|)
  }

  lemma {:induction false} StretchOf(lists: seq<seq<Chunk>>, s: nat)
    requires s < |lists|
    ensures |Flat(lists[..s])| + |lists[s]| == |Flat(lists[..s + 1])| <= |Flat(lists)|
    ensures Flat(lists)[|Flat(lists[..s])|..|Flat(lists[..s + 1])|] == lists[s]
  {
    var n := |lists| - 1;
    if s < n {
      StretchOf(lists[..n], s);
      assert lists[..n][..s] == lists[..s] && lists[..n][..s + 1] == lists[..s + 1];
    } else {
      assert lists[..s + 1] == lists;
    }
  }

  // The chunk tables of an image in which the files have these chunks.
  ghost predicate LaidOut(fs: Fs, unshared: seq<seq<Chunk>>, groups: seq<seq<Chunk>>) {
    && Ordered(fs.kinds) && |fs.kinds| <= LIST_CAP
    && FirstOf(fs.kinds, Files) + |fs.sharedFiles| <= Min(FirstOf(fs.kinds, Devices), FirstOf(fs.kinds, Specials))
    && fs.offsets == Boundaries(fs.kinds, |fs.sharedFiles|)
    && |unshared| + |fs.sharedFiles| == Count(fs.kinds, Files)
    && (forall j :: 0 <= j < |fs.sharedFiles| ==> fs.sharedFiles[j] < |groups|)
    && fs.chunks == Flat(unshared + groups) && fs.chunkTable == Starts(unshared + groups)
  }

  // The chunks a regular inode was laid out with: its own, or those of its group.
  ghost function OwnChunks(fs: Fs, unshared: seq<seq<Chunk>>, groups: seq<seq<Chunk>>, inode: nat): seq<Chunk>
    requires LaidOut(fs, unshared, groups) && IsFile(fs, inode)
  {
    SlotsInOrder(fs.kinds, fs.sharedFiles, inode);
    var k := FilesBefore(fs.kinds, inode);
    if k < |unshared| then unshared[k] else groups[fs.sharedFiles[k - |unshared|]]
  }

  // Every file of a laid-out image is read as what it was laid out with.
  lemma EachFileIsItsOwn(fs: Fs, payloads: seq<Bytes>, unshared: seq<seq<Chunk>>, groups: seq<seq<Chunk>>, inode: nat)
    requires LaidOut(fs, unshared, groups) && Opened(fs) && IsFile(fs, inode)
    ensures Readable(fs, inode) && ChunksOf(fs, inode) == OwnChunks(fs, unshared, groups, inode)
    ensures AllHaveLen(fs.geometry, OwnChunks(fs, unshared, groups, inode))
    ensures FileBytes(fs, payloads, inode) == Content(fs.geometry, payloads, OwnChunks(fs, unshared, groups, inode))
  {
    hide Ordered, FirstOf, Content, FilesBefore, EndsRight, Count, Boundaries;
    SlotsInOrder(fs.kinds, fs.sharedFiles, inode);
    var lists := unshared + groups;
    var k := FilesBefore(fs.kinds, inode);
    var s: nat := if k < |unshared| then k else |unshared| + fs.sharedFiles[k - |unshared|];
    assert ChunkTableSlot(fs.offsets, fs.sharedFiles, inode) == Some(s);
    StretchOf(lists, s);
    assert fs.chunkTable[s] == |Flat(lists[..s])| && fs.chunkTable[s + 1] == |Flat(lists[..s + 1])|;
    assert SlotOf(fs, inode) == Some(s);
    assert Readable(fs, inode);
    assert ChunksOf(fs, inode) == lists[s];
  }

  // Such a table can be indexed, and so opened, exactly when every file laid out can be measured.
  lemma LaidOutIndexableIff(g: Geometry, table: seq<u32>, lists: seq<seq<Chunk>>)
    requires table == Starts(lists)
    ensures Indexable(g, Flat(lists), table) <==> forall s :: 0 <= s < |lists| ==> FileMeasurable(g, lists[s])
  {
    hide FileMeasurable;
    forall s: nat | s < |lists|
      ensures SlotFits(table, s, |Flat(lists)|) && FileChunks(Flat(lists), table, s) == lists[s]
    {
      StretchOf(lists, s);
    }
    assert Indexable(g, Flat(lists), table) ==> forall s: nat :: s < |lists| ==> FileMeasurable(g, lists[s]) by {
      if Indexable(g, Flat(lists), table) {
        forall s: nat | s < |lists| ensures FileMeasurable(g, lists[s]) {
          assert SlotFits(table, s, |Flat(lists)|);
        }
      }
    }
  }
}
