/**
 Random-access reads: binary search into the table of chunk ends, hole expansion,
 one held block and prefixes from the cache, all against the naive file obtained by
 expanding every chunk.

 `ReadInto` shares its cache with other threads, so what the cache answers is any
 sequence of answers a fetch may give: `answers(t, b, n)` is what the t-th fetch
 returns for n bytes of block b. `CacheRuns` shows that every fetch of every run
 meets `AnswersOk`.
 */
module FileRead {
  import opened Common
  import opened ChunkMap
  import opened InodeTable
  import opened CacheModel
  import opened CacheProtocol
  import opened CacheObject

  datatype Fs = Fs(
    kinds: seq<InodeKind>, offsets: Offsets, sharedFiles: seq<u32>,
    chunks: seq<Chunk>, chunkTable: seq<u32>, ends: seq<nat>, geometry: Geometry)

  type Answers = (nat, Block, nat) -> Option<Bytes>

  ghost predicate AnswersOk(img: Image, answers: Answers) {
    forall t: nat, b: Block, n: nat :: answers(t, b, n).Some? ==> FetchOk(img, b, n, answers(t, b, n).value)
  }

  // No fetch of a block there is fails.
  ghost predicate AnswersAll(img: Image, answers: Answers) {
    forall t: nat, b: Block, n: nat :: b < |img.payloads| ==> answers(t, b, n).Some?
  }

  // What opening an image establishes.
  ghost predicate Opened(fs: Fs) {
    && fs.offsets.fileOffset <= fs.offsets.sharedFileOffset
    && EndsRight(fs.geometry, fs.chunks, fs.chunkTable, fs.ends)
  }

  predicate IsFile(fs: Fs, inode: nat) {
    inode < |fs.kinds| && fs.kinds[inode] == Regular
  }

  // The chunks of a file, as the slot of the chunk table that bounds them.
  function SlotOf(fs: Fs, inode: nat): Option<nat>
    requires fs.offsets.fileOffset <= fs.offsets.sharedFileOffset
  {
    match ChunkTableSlot(fs.offsets, fs.sharedFiles, inode)
    case None => None
    case Some(s) => if s + 1 < |fs.chunkTable| then Some(s) else None
  }

  ghost predicate Readable(fs: Fs, inode: nat) {
    Opened(fs) && IsFile(fs, inode) && SlotOf(fs, inode).Some?
  }

  ghost function ChunksOf(fs: Fs, inode: nat): (file: seq<Chunk>)
    requires Readable(fs, inode)
    ensures FileMeasurable(fs.geometry, file)
  {
    var s := SlotOf(fs, inode).value;
    assert SlotEndsRight(fs.geometry, fs.chunks, fs.chunkTable, fs.ends, s);
    FileChunks(fs.chunks, fs.chunkTable, s)
  }

  // The file: its chunks expanded, one after another.
  ghost function FileBytes(fs: Fs, payloads: seq<Bytes>, inode: nat): Bytes
    requires Readable(fs, inode)
  {
    Content(fs.geometry, payloads, ChunksOf(fs, inode))
  }

  ghost function Available(fs: Fs, payloads: seq<Bytes>, inode: nat, offset: nat, len: nat): nat
    requires Readable(fs, inode)
  {
    Min(len, Max(0, |FileBytes(fs, payloads, inode)| - offset))
  }

  // Every chunk of the file that is not a hole lies inside its block.
  predicate ChunkSound(g: Geometry, payloads: seq<Bytes>, c: Chunk) {
    IsHole(g, c) || (c.block < |payloads| && c.offset + c.size <= |payloads[c.block]|)
  }

  ghost predicate FileSound(fs: Fs, payloads: seq<Bytes>, inode: nat)
    requires Readable(fs, inode)
  {
    forall i :: 0 <= i < |ChunksOf(fs, inode)| ==> ChunkSound(fs.geometry, payloads, ChunksOf(fs, inode)[i])
  }

  method FileSize(fs: Fs, ghost payloads: seq<Bytes>, inode: nat) returns (size: nat)
    requires Readable(fs, inode)
    ensures size == |FileBytes(fs, payloads, inode)|
  {
    hide Content, Expand, LogicalLen, ChunkTableSlot;
    var s := SlotOf(fs, inode).value;
    assert SlotEndsRight(fs.geometry, fs.chunks, fs.chunkTable, fs.ends, s);
    var start, end := fs.chunkTable[s], fs.chunkTable[s + 1];
    ghost var file := ChunksOf(fs, inode);
    ContentLen(fs.geometry, payloads, file);
    if end > start {
      assert file[..end - 1 - start + 1] == file;
      size := fs.ends[end - 1];
      assert size == fs.ends[start..end][end - 1 - start];
    } else {
      size := 0;
    }
  }

  // ------------------------------------------------------------ finding a chunk

  // Number of leading ends at or before `offset`; `ends` is in order.
  method PartitionPoint(ends: seq<nat>, offset: nat) returns (k: nat)
    requires forall i, j :: 0 <= i <= j < |ends| ==> ends[i] <= ends[j]
    ensures k <= |ends|
    ensures forall i :: 0 <= i < k ==> ends[i] <= offset
    ensures forall i :: k <= i < |ends| ==> ends[i] > offset
  {
    var lo, hi := 0, |ends|;
    while lo < hi
      invariant 0 <= lo <= hi <= |ends|
      invariant forall i :: 0 <= i < lo ==> ends[i] <= offset
      invariant forall i :: hi <= i < |ends| ==> ends[i] > offset
    {
      var mid := lo + (hi - lo) / 2;
      if ends[mid] <= offset {
        lo := mid + 1;
      } else {
        hi := mid;
      }
    }
    k := lo;
  }

  lemma EndsInOrder(g: Geometry, file: seq<Chunk>, ends: seq<nat>)
    requires FileEndsRight(g, file, ends)
    ensures forall i, j :: 0 <= i <= j < |ends| ==> ends[i] <= ends[j]
  {
    forall i, j | 0 <= i <= j < |ends| ensures ends[i] <= ends[j] {
      ContentPrefix(g, [], file[..j + 1], i + 1);
      assert file[..j + 1][..i + 1] == file[..i + 1];
    }
  }

  // ------------------------------------------------------------------- reading

  // Where chunk i of a file starts.
  ghost function Cursor(g: Geometry, file: seq<Chunk>, i: nat): nat
    requires AllHaveLen(g, file) && i <= |file|
  {
    TotalLen(g, file[..i])
  }

  // How much of a read is done once everything before `cursor` has been copied.
  function Done(offset: nat, len: nat, cursor: nat): nat {
    Min(len, Max(0, cursor - offset))
  }

  ghost predicate Copied(content: Bytes, offset: nat, now: Bytes, before: Bytes, n: nat) {
    && |now| == |before| && n <= |now|
    && (n > 0 ==> offset + n <= |content| && now[..n] == content[offset..offset + n])
    && now[n..] == before[n..]
  }

  lemma PlacedSlice(whole: Bytes, at: nat, part: Bytes, from: nat, take: nat)
    requires Placed(whole, at, part) && from + take <= |part|
    ensures Placed(whole, at + from, part[from..from + take])
  {
    var x, y := whole[at + from..at + from + take], part[from..from + take];
    forall k | 0 <= k < take ensures x[k] == y[k] {
      assert part[from + k] == whole[at..at + |part|][from + k];
    }
  }

  lemma CopiedMore(content: Bytes, offset: nat, now: Bytes, before: Bytes, n: nat, bytes: Bytes)
    requires Copied(content, offset, now, before, n)
    requires n + |bytes| <= |now| && Placed(content, offset + n, bytes)
    ensures Copied(content, offset, Overlaid(now, n, bytes), before, n + |bytes|)
  {
    var after := Overlaid(now, n, bytes);
    assert after[..n + |bytes|] == now[..n] + bytes;
    if n > 0 {
      assert content[offset..offset + n + |bytes|] == content[offset..offset + n] + bytes;
    }
    assert after[n + |bytes|..] == now[n..][|bytes|..] == before[n..][|bytes|..] == before[n + |bytes|..];
  }

  // `now` with `bytes` written at n.
  function Overlaid(now: Bytes, n: nat, bytes: Bytes): (r: Bytes)
    requires n + |bytes| <= |now|
    ensures |r| == |now|
  {
    now[..n] + bytes + now[n + |bytes|..]
  }

  method CopyTo(buf: array<byte>, at: nat, bytes: Bytes)
    requires at + |bytes| <= buf.Length
    modifies buf
    ensures buf[..] == Overlaid(old(buf[..]), at, bytes)
  {
    forall k | 0 <= k < |bytes| {
      buf[at + k] := bytes[k];
    }
    var x, y := buf[..], Overlaid(old(buf[..]), at, bytes);
    assert forall k :: 0 <= k < |x| ==> x[k] == y[k];
  }

  // What a data chunk's stretch of the file is, once its block has answered far enough.
  lemma BlockSlice(g: Geometry, img: Image, c: Chunk, from: nat, take: nat, block: Bytes)
    requires !IsHole(g, c) && from + take <= c.size
    requires c.block < |img.payloads| && block <= img.payloads[c.block] && c.offset + from + take <= |block|
    ensures Expand(g, img.payloads, c)[from..from + take] == block[c.offset + from..c.offset + from + take]
  {
    var x := Expand(g, img.payloads, c)[from..from + take];
    var y := block[c.offset + from..c.offset + from + take];
    forall k | 0 <= k < take ensures x[k] == y[k] {
      assert y[k] == block[c.offset + from + k] == img.payloads[c.block][c.offset + from + k];
      assert x[k] == Expand(g, img.payloads, c)[from + k] == PayloadByte(img.payloads, c.block, c.offset + (from + k));
    }
  }

  // The copying loop of one chunk: its arithmetic, for a chunk that the read reaches.
  lemma TakeRight(offset: nat, len: nat, cursor: nat, end: nat, wantEnd: nat, written: nat)
    requires offset <= U64_MAX && cursor <= end <= U64_MAX && wantEnd == Min(U64_MAX, offset + len)
    requires written == Done(offset, len, cursor) && written < len && offset < end && cursor < wantEnd
    ensures var from := Max(0, offset - cursor);
            var take := Min(Min(wantEnd - cursor, end - cursor) - from, len - written);
            && take >= 0 && cursor + from + take <= end && written + take <= len
            && cursor + from == offset + written
            && Done(offset, len, end) == written + take
  {
  }

  // One chunk's bytes at [from, from + take): zeros for a hole, else from the held
  // block where it reaches far enough, else from a fetch.
  method ReadChunk(g: Geometry, ghost img: Image, chunk: Chunk, from: nat, take: nat,
                   held: Option<(Block, Bytes)>, answers: Answers, clock: nat)
    returns (r: Option<Bytes>, held': Option<(Block, Bytes)>, clock': nat)
    requires AnswersOk(img, answers) && HeldTrue(img, held)
    requires LogicalLen(g, chunk).Some? && from + take <= LogicalLen(g, chunk).value
    ensures HeldTrue(img, held')
    ensures r.Some? ==> r.value == Expand(g, img.payloads, chunk)[from..from + take]
    ensures r.None? ==> !ChunkSound(g, img.payloads, chunk) || !AnswersAll(img, answers)
  {
    held', clock' := held, clock;
    if IsHole(g, chunk) {
      r := Some(seq<byte>(take, _ => 0));
      assert r.value == Expand(g, img.payloads, chunk)[from..from + take];
      return;
    }
    var blockEnd := chunk.offset + from + take;
    var block: Bytes;
    if held.Some? && held.value.0 == chunk.block && |held.value.1| >= blockEnd {
      block := held.value.1;
    } else {
      var answer := answers(clock, chunk.block, blockEnd);
      clock' := clock + 1;
      if answer.None? {
        return None, held', clock';
      }
      block := answer.value;
      held' := Some((chunk.block, block));
    }
    if blockEnd > |block| {
      return None, held', clock';
    }
    BlockSlice(g, img, chunk, from, take, block);
    r := Some(block[chunk.offset + from..blockEnd]);
  }

  ghost predicate HeldTrue(img: Image, held: Option<(Block, Bytes)>) {
    held.Some? ==> held.value.0 < |img.payloads| && held.value.1 <= img.payloads[held.value.0]
  }

  // The chunks of one file, from the first that reaches past `offset`, copied until the buffer is full.
  method ReadChunks(g: Geometry, ghost img: Image, file: seq<Chunk>, ends: seq<nat>, offset: u64,
                    buf: array<byte>, answers: Answers, clock: nat)
    returns (r: Option<nat>, clock': nat)
    requires FileEndsRight(g, file, ends) && AnswersOk(img, answers)
    modifies buf
    ensures r.Some? ==> r.value == Done(offset, buf.Length, TotalLen(g, file))
    ensures r.Some? ==> Copied(Content(g, img.payloads, file), offset, buf[..], old(buf[..]), r.value)
    ensures (forall i :: 0 <= i < |file| ==> ChunkSound(g, img.payloads, file[i])) && AnswersAll(img, answers)
            ==> r.Some?
  {
    hide Content, Copied, Overlaid, Placed, Cursor, FetchOk, LogicalLen, TotalLen, FileEndsRight, AnswersOk;
    clock' := clock;
    EndsInOrder(g, file, ends);
    MeasuredContent(g, img.payloads, file, ends);
    NothingCopied(Content(g, img.payloads, file), offset, buf[..]);
    var first := PartitionPoint(ends, offset);
    FirstIsReached(g, file, ends, offset, first);
    var wantEnd := Min(U64_MAX, offset + buf.Length);
    var written: nat := 0;
    var held: Option<(Block, Bytes)> := None;
    var i: nat := first;
    while i < |file|
      invariant first <= i <= |file|
      invariant written == Done(offset, buf.Length, Cursor(g, file, i))
      invariant Copied(Content(g, img.payloads, file), offset, buf[..], old(buf[..]), written)
      invariant HeldTrue(img, held)
    {
      ChunkAt(g, file, ends, i);
      var len := LogicalLen(g, file[i]).value;
      var end := ends[i];
      var cursor := end - len;
      if written == buf.Length || cursor >= wantEnd {
        LaterDone(g, file, i, offset, buf.Length);
        return Some(written), clock';
      }
      TakeRight(offset, buf.Length, cursor, end, wantEnd, written);
      var from := Max(0, offset - cursor);
      var take := Min(Min(wantEnd - cursor, end - cursor) - from, buf.Length - written);
      var bytes;
      bytes, held, clock' := ReadChunk(g, img, file[i], from, take, held, answers, clock');
      if bytes.None? {
        return None, clock';
      }
      CopyStep(g, img.payloads, file, i, from, take, offset, buf[..], old(buf[..]), written, bytes.value);
      CopyTo(buf, written, bytes.value);
      written := written + take;
      i := i + 1;
    }
    assert file[..|file|] == file;
    CursorIs(g, file, |file|);
    r := Some(written);
  }

  lemma NothingCopied(content: Bytes, offset: nat, buf: Bytes)
    ensures Copied(content, offset, buf, buf, 0)
  {
  }

  // Writing chunk i's stretch after what is already copied extends the copy.
  lemma CopyStep(g: Geometry, payloads: seq<Bytes>, file: seq<Chunk>, i: nat, from: nat, take: nat,
                 offset: nat, now: Bytes, before: Bytes, written: nat, bytes: Bytes)
    requires AllHaveLen(g, file) && i < |file| && from + take <= LogicalLen(g, file[i]).value
    requires Copied(Content(g, payloads, file), offset, now, before, written)
    requires Cursor(g, file, i) + from == offset + written && written + take <= |now|
    requires bytes == Expand(g, payloads, file[i])[from..from + take]
    ensures |bytes| == take
    ensures Copied(Content(g, payloads, file), offset, Overlaid(now, written, bytes), before, written + take)
  {
    hide Content, Copied, Placed, Overlaid;
    ContentAt(g, payloads, file, i);
    PlacedSlice(Content(g, payloads, file), Cursor(g, file, i), Expand(g, payloads, file[i]), from, take);
    CopiedMore(Content(g, payloads, file), offset, now, before, written, bytes);
  }

  // Reads into `buf`. On success, the count is what the file has left at `offset` up to
  // the buffer's size, exactly those bytes are in the buffer, and the rest of it is as it was.
  // It fails only on something that is not a readable file, a chunk reaching past its
  // block's payload, or a fetch that fails.
  method ReadInto(fs: Fs, ghost img: Image, inode: nat, offset: u64, buf: array<byte>, answers: Answers, clock: nat)
    returns (r: Option<nat>, clock': nat)
    requires Opened(fs) && AnswersOk(img, answers)
    modifies buf
    ensures r.Some? ==> Readable(fs, inode)
    ensures r.Some? ==> r.value == Available(fs, img.payloads, inode, offset, buf.Length)
    ensures r.Some? ==> Copied(FileBytes(fs, img.payloads, inode), offset, buf[..], old(buf[..]), r.value)
    ensures Readable(fs, inode) && FileSound(fs, img.payloads, inode) && AnswersAll(img, answers) ==> r.Some?
  {
    if !IsFile(fs, inode) || SlotOf(fs, inode).None? {
      return None, clock;
    }
    var s := SlotOf(fs, inode).value;
    assert SlotEndsRight(fs.geometry, fs.chunks, fs.chunkTable, fs.ends, s);
    var start, stop := fs.chunkTable[s], fs.chunkTable[s + 1];
    assert ChunksOf(fs, inode) == fs.chunks[start..stop];
    ContentLen(fs.geometry, img.payloads, fs.chunks[start..stop]);
    r, clock' := ReadChunks(fs.geometry, img, fs.chunks[start..stop], fs.ends[start..stop], offset, buf, answers,
                            clock);
  }

  // Chunk i of a file ends one logical length past where it starts.
  lemma ChunkAt(g: Geometry, file: seq<Chunk>, ends: seq<nat>, i: nat)
    requires FileEndsRight(g, file, ends) && i < |file|
    ensures ends[i] == Cursor(g, file, i + 1) <= U64_MAX
    ensures ends[i] == Cursor(g, file, i) + LogicalLen(g, file[i]).value
  {
    ContentAt(g, [], file, i);
    ContentPrefix(g, [], file, i + 1);
  }

  // The chunks the search skips end at or before the offset.
  lemma FirstIsReached(g: Geometry, file: seq<Chunk>, ends: seq<nat>, offset: nat, first: nat)
    requires FileEndsRight(g, file, ends) && first <= |ends|
    requires forall i :: 0 <= i < first ==> ends[i] <= offset
    ensures Cursor(g, file, first) <= offset
  {
    if first > 0 {
      assert ends[first - 1] == TotalLen(g, file[..first]);
    }
  }

  // Once the buffer is full, or the file's end is the last byte addressable, nothing later adds to it.
  lemma LaterDone(g: Geometry, file: seq<Chunk>, i: nat, offset: nat, len: nat)
    requires FileMeasurable(g, file) && i <= |file| && offset <= U64_MAX
    requires Done(offset, len, Cursor(g, file, i)) == len || Cursor(g, file, i) >= Min(U64_MAX, offset + len)
    ensures Done(offset, len, Cursor(g, file, i)) == Done(offset, len, TotalLen(g, file))
  {
    ContentPrefix(g, [], file, i);
  }

  // ------------------------------------------------------- fresh buffers

  // Reads up to `size` bytes into a buffer of its own: as many as the file has left at `offset`.
  method ReadAt(fs: Fs, ghost img: Image, inode: nat, offset: u64, size: u64, answers: Answers, clock: nat)
    returns (r: Option<Bytes>, clock': nat)
    requires Opened(fs) && AnswersOk(img, answers)
    ensures r.Some? ==> Readable(fs, inode) && |r.value| == Available(fs, img.payloads, inode, offset, size)
    ensures r.Some? && r.value != [] ==> Placed(FileBytes(fs, img.payloads, inode), offset, r.value)
    ensures Readable(fs, inode) && FileSound(fs, img.payloads, inode) && AnswersAll(img, answers) ==> r.Some?
  {
    clock' := clock;
    var left: nat := 0;
    if IsFile(fs, inode) {
      if SlotOf(fs, inode).None? {
        return None, clock';
      }
      var total := FileSize(fs, img.payloads, inode);
      left := Max(0, total - offset);
    }
    var available := Min(left, size);
    var buf := new byte[available];
    var n;
    n, clock' := ReadInto(fs, img, inode, offset, buf, answers, clock');
    if n.None? {
      return None, clock';
    }
    assert buf[..][..n.value] == buf[..n.value];
    r := Some(buf[..n.value]);
  }

  // The whole of a file.
  method ReadFile(fs: Fs, ghost img: Image, inode: nat, answers: Answers, clock: nat)
    returns (r: Option<Bytes>, clock': nat)
    requires Opened(fs) && AnswersOk(img, answers)
    ensures r.Some? ==> Readable(fs, inode) && r.value == FileBytes(fs, img.payloads, inode)
    ensures Readable(fs, inode) && FileSound(fs, img.payloads, inode) && AnswersAll(img, answers) ==> r.Some?
  {
    var size: nat := 0;
    if IsFile(fs, inode) {
      if SlotOf(fs, inode).None? {
        return None, clock;
      }
      size := FileSize(fs, img.payloads, inode);
      ContentLen(fs.geometry, img.payloads, ChunksOf(fs, inode));
    }
    r, clock' := ReadAt(fs, img, inode, 0, size, answers, clock);
    if r.Some? {
      WholeSlice(FileBytes(fs, img.payloads, inode), r.value);
    }
  }

  lemma WholeSlice(content: Bytes, part: Bytes)
    requires |part| == |content| && (part != [] ==> Placed(content, 0, part))
    ensures part == content
  {
    assert content[0..|content|] == content;
  }

  // ----------------------------------------------------------- whole files

  // Reading in successive steps of any positive size terminates and yields the whole file.
  method ReadInSteps(fs: Fs, ghost img: Image, inode: nat, step: nat, answers: Answers, clock: nat)
    returns (r: Option<Bytes>, clock': nat)
    requires Readable(fs, inode) && AnswersOk(img, answers) && step > 0
    ensures r.Some? ==> r.value == FileBytes(fs, img.payloads, inode)
    ensures FileSound(fs, img.payloads, inode) && AnswersAll(img, answers) ==> r.Some?
  {
    clock' := clock;
    var size := FileSize(fs, img.payloads, inode);
    ghost var content := FileBytes(fs, img.payloads, inode);
    assert size <= U64_MAX by {
      ContentLen(fs.geometry, img.payloads, ChunksOf(fs, inode));
    }
    var buf := new byte[step];
    var out: Bytes := [];
    var offset: nat := 0;
    while offset < size
      invariant offset <= size && out == content[..offset]
      decreases size - offset
    {
      ghost var before := buf[..];
      var n;
      n, clock' := ReadInto(fs, img, inode, offset, buf, answers, clock');
      if n.None? {
        return None, clock';
      }
      if n.value == 0 {
        break;
      }
      assert buf[..][..n.value] == buf[..n.value];
      assert content[..offset + n.value] == content[..offset] + content[offset..offset + n.value];
      out := out + buf[..n.value];
      offset := offset + n.value;
    }
    assert content[..size] == content;
    r := Some(out);
  }

  // The extractor's copy: steps of a mebibyte, or the whole file when it is smaller.
  method WriteRegular(fs: Fs, ghost img: Image, inode: nat, answers: Answers, clock: nat)
    returns (r: Option<Bytes>, clock': nat)
    requires Readable(fs, inode) && AnswersOk(img, answers)
    ensures r.Some? ==> r.value == FileBytes(fs, img.payloads, inode)
    ensures FileSound(fs, img.payloads, inode) && AnswersAll(img, answers) ==> r.Some?
  {
    var size := FileSize(fs, img.payloads, inode);
    r, clock' := ReadInSteps(fs, img, inode, Min(0x10_0000, Max(size, 1)), answers, clock);
  }

  // ------------------------------------------------------- borrowed reads

  // Where a borrowed read would take its slice from.
  datatype Plan = Fallback | FromBlock(block: Block, start: nat, end: nat)

  datatype Borrowed = Refused(lost: bool) | NoSlice | Slice(bytes: Bytes)

  function Covering(ends: seq<nat>, offset: nat): (k: nat)
    ensures k <= |ends|
  {
    if ends == [] || ends[0] > offset then 0 else 1 + Covering(ends[1..], offset)
  }

  lemma {:induction false} CoveringUnique(ends: seq<nat>, offset: nat, k: nat)
    requires k <= |ends|
    requires forall i :: 0 <= i < k ==> ends[i] <= offset
    requires k < |ends| ==> ends[k] > offset
    ensures Covering(ends, offset) == k
  {
    if k > 0 {
      CoveringUnique(ends[1..], offset, k - 1);
    }
  }

  // The end of the request saturates at the largest 64-bit offset, as the source computes it.
  function BorrowPlan(g: Geometry, file: seq<Chunk>, ends: seq<nat>, offset: u64, len: nat): Plan
    requires FileEndsRight(g, file, ends)
  {
    var i := Covering(ends, offset);
    if i == |ends| || IsHole(g, file[i]) || Min(U64_MAX, offset + len) > ends[i] then Fallback
    else
      ChunkAt(g, file, ends, i);
      var cursor := ends[i] - file[i].size;
      var start := file[i].offset + Max(0, offset - cursor);
      FromBlock(file[i].block, start, start + len)
  }

  // A slice that is what reading into a buffer of its length would have produced.
  ghost predicate SameAsRead(content: Bytes, offset: nat, bytes: Bytes) {
    bytes == [] || Placed(content, offset, bytes)
  }

  lemma CoveringFacts(g: Geometry, file: seq<Chunk>, ends: seq<nat>, offset: nat)
    requires FileEndsRight(g, file, ends)
    ensures var i := Covering(ends, offset);
            Cursor(g, file, i) <= offset && (i < |ends| ==> offset < ends[i])
  {
    CoveringIsFirst(ends, offset);
    FirstIsReached(g, file, ends, offset, Covering(ends, offset));
  }

  lemma {:induction false} CoveringIsFirst(ends: seq<nat>, offset: nat)
    ensures forall i :: 0 <= i < Covering(ends, offset) ==> ends[i] <= offset
    ensures Covering(ends, offset) < |ends| ==> ends[Covering(ends, offset)] > offset
  {
    if ends != [] && ends[0] <= offset {
      CoveringIsFirst(ends[1..], offset);
      assert forall i :: 0 < i < |ends| ==> ends[i] == ends[1..][i - 1];
    }
  }

  // The planned slice is the file's own bytes exactly when the request's end fits 64 bits.
  lemma PlanRightIff(g: Geometry, img: Image, file: seq<Chunk>, ends: seq<nat>, offset: u64, len: nat, block: Bytes)
    requires FileEndsRight(g, file, ends) && len > 0
    requires BorrowPlan(g, file, ends, offset, len).FromBlock?
    requires var plan := BorrowPlan(g, file, ends, offset, len);
             plan.block < |img.payloads| && block <= img.payloads[plan.block] && plan.end <= |block|
    ensures var plan := BorrowPlan(g, file, ends, offset, len);
            SameAsRead(Content(g, img.payloads, file), offset, block[plan.start..plan.end]) <==> offset + len <= U64_MAX
  {
    var i := Covering(ends, offset);
    var plan := BorrowPlan(g, file, ends, offset, len);
    CoveringFacts(g, file, ends, offset);
    ChunkAt(g, file, ends, i);
    var cursor := Cursor(g, file, i);
    PlanIs(g, file, ends, offset, len);
    hide BorrowPlan, Covering, Content, Expand, Cursor, FileEndsRight;
    MeasuredContent(g, img.payloads, file, ends);
    if offset + len <= U64_MAX {
      assert offset - cursor + len <= LogicalLen(g, file[i]).value;
      SliceIsContent(g, img, file, i, offset - cursor, len, block);
    }
  }

  lemma DataLen(g: Geometry, payloads: seq<Bytes>, c: Chunk)
    requires !IsHole(g, c)
    ensures LogicalLen(g, c) == Some(c.size) && |Expand(g, payloads, c)| == c.size
  {
  }

  // Part of a chunk, cut from its block, is the file's content at that place.
  lemma SliceIsContent(g: Geometry, img: Image, file: seq<Chunk>, i: nat, from: nat, len: nat, block: Bytes)
    requires AllHaveLen(g, file) && i < |file| && !IsHole(g, file[i]) && from + len <= file[i].size
    requires file[i].block < |img.payloads| && block <= img.payloads[file[i].block]
    requires file[i].offset + from + len <= |block|
    ensures Placed(Content(g, img.payloads, file), Cursor(g, file, i) + from,
                   block[file[i].offset + from..file[i].offset + from + len])
  {
    hide *;
    DataLen(g, img.payloads, file[i]);
    CursorIs(g, file, i);
    ContentAt(g, img.payloads, file, i);
    BlockSlice(g, img, file[i], from, len, block);
    PlacedSlice(Content(g, img.payloads, file), Cursor(g, file, i), Expand(g, img.payloads, file[i]), from, len);
  }

  lemma CursorIs(g: Geometry, file: seq<Chunk>, i: nat)
    requires AllHaveLen(g, file) && i <= |file|
    ensures Cursor(g, file, i) == TotalLen(g, file[..i])
  {
  }

  lemma MeasuredContent(g: Geometry, payloads: seq<Bytes>, file: seq<Chunk>, ends: seq<nat>)
    requires FileEndsRight(g, file, ends)
    ensures FileMeasurable(g, file) && |Content(g, payloads, file)| <= U64_MAX && |ends| == |file|
  {
    ContentLen(g, payloads, file);
  }

  // Where a planned slice lies, in terms of where its chunk starts.
  lemma PlanIs(g: Geometry, file: seq<Chunk>, ends: seq<nat>, offset: u64, len: nat)
    requires FileEndsRight(g, file, ends) && BorrowPlan(g, file, ends, offset, len).FromBlock?
    ensures var i := Covering(ends, offset);
            && i < |file| && !IsHole(g, file[i]) && Min(U64_MAX, offset + len) <= ends[i]
            && LogicalLen(g, file[i]) == Some(file[i].size) && Cursor(g, file, i) <= offset
            && BorrowPlan(g, file, ends, offset, len)
               == FromBlock(file[i].block, file[i].offset + (offset - Cursor(g, file, i)),
                            file[i].offset + (offset - Cursor(g, file, i)) + len)
  {
    CoveringFacts(g, file, ends, offset);
    ChunkAt(g, file, ends, Covering(ends, offset));
    hide Covering, Cursor;
  }

  // A request is planned from a block exactly when one data chunk holds all of it.
  lemma PlannedIff(g: Geometry, file: seq<Chunk>, ends: seq<nat>, offset: u64, len: nat)
    requires FileEndsRight(g, file, ends)
    ensures BorrowPlan(g, file, ends, offset, len).FromBlock? <==>
              exists i :: 0 <= i < |file| && !IsHole(g, file[i])
                          && Cursor(g, file, i) <= offset < ends[i] && Min(U64_MAX, offset + len) <= ends[i]
  {
    var k := Covering(ends, offset);
    CoveringFacts(g, file, ends, offset);
    EndsInOrder(g, file, ends);
    forall i | 0 <= i < |file| && Cursor(g, file, i) <= offset < ends[i] ensures i == k {
      forall j | 0 <= j < i ensures ends[j] <= offset {
        assert ends[i - 1] == Cursor(g, file, i);
      }
      CoveringUnique(ends, offset, i);
    }
  }

  ghost function FilePlan(fs: Fs, inode: nat, offset: u64, len: nat): Plan
    requires Readable(fs, inode)
  {
    var s := SlotOf(fs, inode).value;
    assert SlotEndsRight(fs.geometry, fs.chunks, fs.chunkTable, fs.ends, s);
    BorrowPlan(fs.geometry, ChunksOf(fs, inode), fs.ends[fs.chunkTable[s]..fs.chunkTable[s + 1]], offset, len)
  }

  // The codec fails on no block.
  ghost predicate Decodes(img: Image, codec: Codec) {
    forall b: Block :: b < |img.payloads| ==> Decodable(img, codec, b)
  }

  // Borrows a slice straight out of the cache, held exclusively. The slice is what a
  // copying read would give, for every request whose end fits 64 bits and for no other,
  // and the block just decoded is never found missing.
  method ReadBorrowed(fs: Fs, img: Image, codec: Codec, inode: nat, offset: u64, len: nat, cache: BlockCache)
    returns (r: Borrowed)
    requires Opened(fs) && Honest(img, codec) && img.budget == cache.budget && Quiet(img, cache.inner.View())
    modifies cache.inner
    ensures Quiet(img, cache.inner.View())
    ensures r.Slice? ==> |r.bytes| == len && (len > 0 ==> Readable(fs, inode))
    ensures r.Slice? && len > 0 ==>
              (SameAsRead(FileBytes(fs, img.payloads, inode), offset, r.bytes) <==> offset + len <= U64_MAX)
    ensures len > 0 ==> (r.NoSlice? <==> Readable(fs, inode) && FilePlan(fs, inode, offset, len).Fallback?)
    ensures r.Refused? ==> !r.lost
    ensures r.Refused? ==>
              !Readable(fs, inode) || !Decodes(img, codec) || FilePlan(fs, inode, offset, len).Fallback?
              || !BlockReaches(img.payloads, FilePlan(fs, inode, offset, len))
  {
    if !IsFile(fs, inode) {
      return Refused(false);
    }
    if len == 0 {
      return Slice([]);
    }
    if SlotOf(fs, inode).None? {
      return Refused(false);
    }
    var s := SlotOf(fs, inode).value;
    assert SlotEndsRight(fs.geometry, fs.chunks, fs.chunkTable, fs.ends, s);
    var start, stop := fs.chunkTable[s], fs.chunkTable[s + 1];
    assert ChunksOf(fs, inode) == fs.chunks[start..stop];
    var planned := BorrowPlan(fs.geometry, fs.chunks[start..stop], fs.ends[start..stop], offset, len);
    r := BorrowFrom(img, codec, planned, cache);
    ghost var plan := FilePlan(fs, inode, offset, len);
    if r.Slice? {
      PlanRightIff(fs.geometry, img, fs.chunks[start..stop], fs.ends[start..stop], offset, len,
                   img.payloads[plan.block]);
    }
  }

  predicate BlockReaches(payloads: seq<Bytes>, plan: Plan) {
    plan.FromBlock? ==> plan.block < |payloads| && plan.end <= |payloads[plan.block]|
  }

  lemma TouchStaysQuiet(img: Image, s: Inner, b: Block)
    requires Quiet(img, s)
    ensures Quiet(img, Touch(s, b))
  {
    TouchKeeps(s, b);
    hide Consistent, Without;
  }

  method BorrowFrom(img: Image, codec: Codec, plan: Plan, cache: BlockCache) returns (r: Borrowed)
    requires Honest(img, codec) && img.budget == cache.budget && Quiet(img, cache.inner.View())
    requires plan.FromBlock? ==> plan.start <= plan.end
    modifies cache.inner
    ensures Quiet(img, cache.inner.View())
    ensures r.Slice? ==> plan.FromBlock? && plan.block < |img.payloads| && plan.end <= |img.payloads[plan.block]|
                         && r.bytes == img.payloads[plan.block][plan.start..plan.end]
    ensures r.NoSlice? <==> plan.Fallback?
    ensures r.Refused? ==> !r.lost && (!Decodes(img, codec) || !BlockReaches(img.payloads, plan))
  {
    hide Fetched, Quiet, Honest, Decodable;
    if plan.Fallback? {
      return NoSlice;
    }
    var fetched := cache.Fetch(img, codec, plan.block, plan.end);
    if fetched.None? || plan.end > |fetched.value| {
      return Refused(false);
    }
    TouchStaysQuiet(img, cache.inner.View(), plan.block);
    var bytes := cache.Resident(plan.block);
    if bytes.None? {
      return Refused(true);
    }
    assert bytes.value == fetched.value;
    r := Slice(bytes.value[plan.start..plan.end]);
  }

  // A file of the largest size there is, ending in one byte of data: a two-byte request
  // for that last byte is planned from the block, past the end of the file.
  lemma BorrowPastTheLastByte()
    ensures exists g: Geometry, file: seq<Chunk>, ends: seq<nat> ::
              && FileEndsRight(g, file, ends)
              && BorrowPlan(g, file, ends, U64_MAX - 1, 2) == FromBlock(0, 0, 2)
              && TotalLen(g, file) == U64_MAX
  {
    var g := Geometry(Some(9), 1, [U64_MAX - 1]);
    var file := [Chunk(9, U32_MAX, 0), Chunk(0, 0, 1)];
    var ends: seq<nat> := [U64_MAX - 1, U64_MAX];
    assert LogicalLen(g, file[0]) == Some(U64_MAX - 1) && LogicalLen(g, file[1]) == Some(1);
    assert file[..1] == [file[0]] && file[..2] == file && file[..0] == [];
    assert AllHaveLen(g, file) && AllHaveLen(g, file[..1]);
    assert TotalLen(g, file[..0]) == 0;
    assert file[..1][..0] == [];
    assert TotalLen(g, file[..1]) == U64_MAX - 1;
    assert TotalLen(g, file) == U64_MAX;
    CoveringUnique(ends, U64_MAX - 1, 1);
    assert FileEndsRight(g, file, ends);
    assert BorrowPlan(g, file, ends, U64_MAX - 1, 2) == FromBlock(0, 0, 2);
  }
}
