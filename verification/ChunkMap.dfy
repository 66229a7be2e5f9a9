/**
 Files as lists of chunks: how long each chunk is, what it expands to, and the
 table of cumulative ends that lets a read find its first chunk by binary search.
 */
module ChunkMap {
  import opened Common

  datatype Chunk = Chunk(block: u32, offset: u32, size: u32)

  // What chunk lengths depend on: the block index standing for holes, the block
  // size, and the table of oversized hole lengths.
  datatype Geometry = Geometry(holeBlock: Option<u32>, blockSize: u32, largeHoles: seq<u64>)

  const LARGE_HOLE_SENTINEL: nat := U32_MAX

  predicate IsHole(g: Geometry, c: Chunk) {
    g.holeBlock == Some(c.block)
  }

  // A hole's length: inline as whole blocks plus a remainder, or by table index.
  function HoleLength(g: Geometry, c: Chunk): Option<nat> {
    if c.offset == LARGE_HOLE_SENTINEL then
      if c.size < |g.largeHoles| then Some(g.largeHoles[c.size]) else None
    else if c.size * g.blockSize > U64_MAX || c.size * g.blockSize + c.offset > U64_MAX then None
    else Some(c.size * g.blockSize + c.offset)
  }

  function LogicalLen(g: Geometry, c: Chunk): Option<nat> {
    if IsHole(g, c) then HoleLength(g, c) else Some(c.size)
  }

  ghost predicate AllHaveLen(g: Geometry, chunks: seq<Chunk>) {
    forall i :: 0 <= i < |chunks| ==> LogicalLen(g, chunks[i]).Some?
  }

  // A hole as a writer stores it: whole blocks and what is left over them, where that many blocks can be counted.
  function HoleChunk(hole: u32, blockSize: u32, len: nat): Chunk
    requires blockSize > 0 && len / blockSize <= U32_MAX
  {
    Chunk(hole, len % blockSize, len / blockSize)
  }

  // Its length is read back, and a length kept in the table is found under its number.
  lemma HoleLengthBack(g: Geometry, len: nat)
    requires g.holeBlock.Some? && g.blockSize > 0 && len / g.blockSize <= U32_MAX && len <= U64_MAX
    ensures LogicalLen(g, HoleChunk(g.holeBlock.value, g.blockSize, len)) == Some(len)
  {
    assert len == g.blockSize * (len / g.blockSize) + len % g.blockSize;
  }

  lemma LargeHoleBack(g: Geometry, i: u32)
    requires g.holeBlock.Some?
    ensures LogicalLen(g, Chunk(g.holeBlock.value, 0xFFFF_FFFF, i))
            == if i < |g.largeHoles| then Some(g.largeHoles[i]) else None
  {
  }

  // Any other chunk is as long as it says, wherever in its block it lies.
  lemma DataLengthBack(g: Geometry, c: Chunk)
    requires g.holeBlock != Some(c.block)
    ensures LogicalLen(g, c) == Some(c.size)
  {
  }

  // -------------------------------------------------------- the naive file

  // Zero stands in for payload bytes a corrupt chunk claims but its block lacks.
  function PayloadByte(payloads: seq<Bytes>, b: nat, at: nat): byte {
    if b < |payloads| && at < |payloads[b]| then payloads[b][at] else 0
  }

  function Expand(g: Geometry, payloads: seq<Bytes>, c: Chunk): (r: Bytes)
    requires LogicalLen(g, c).Some?
    ensures |r| == LogicalLen(g, c).value
  {
    if IsHole(g, c) then seq<byte>(HoleLength(g, c).value, _ => 0)
    else seq<byte>(c.size, i requires 0 <= i => PayloadByte(payloads, c.block, c.offset + i))
  }

  // A hole reads as zeros, any other chunk as its stretch of its block's payload.
  lemma ExpandedBytes(g: Geometry, payloads: seq<Bytes>, c: Chunk, k: nat)
    requires LogicalLen(g, c).Some? && k < LogicalLen(g, c).value
    ensures g.holeBlock == Some(c.block) ==> Expand(g, payloads, c)[k] == 0
    ensures g.holeBlock != Some(c.block) && c.block < |payloads| && c.offset + c.size <= |payloads[c.block]| ==>
              Expand(g, payloads, c)[k] == payloads[c.block][c.offset + k]
  {
  }

  // Every chunk expanded, one after another.
  function Content(g: Geometry, payloads: seq<Bytes>, chunks: seq<Chunk>): Bytes
    requires AllHaveLen(g, chunks)
  {
    if chunks == [] then []
    else
      var n := |chunks| - 1;
      Content(g, payloads, chunks[..n]) + Expand(g, payloads, chunks[n])
  }

  function TotalLen(g: Geometry, chunks: seq<Chunk>): nat
    requires AllHaveLen(g, chunks)
  {
    if chunks == [] then 0
    else TotalLen(g, chunks[..|chunks| - 1]) + LogicalLen(g, chunks[|chunks| - 1]).value
  }

  lemma {:induction false} ContentLen(g: Geometry, payloads: seq<Bytes>, chunks: seq<Chunk>)
    requires AllHaveLen(g, chunks)
    ensures |Content(g, payloads, chunks)| == TotalLen(g, chunks)
  {
    if chunks != [] {
      ContentLen(g, payloads, chunks[..|chunks| - 1]);
    }
  }

  lemma {:induction false} ContentPrefix(g: Geometry, payloads: seq<Bytes>, chunks: seq<Chunk>, n: nat)
    requires AllHaveLen(g, chunks) && n <= |chunks|
    ensures Content(g, payloads, chunks[..n]) <= Content(g, payloads, chunks)
    ensures TotalLen(g, chunks[..n]) <= TotalLen(g, chunks)
    decreases |chunks|
  {
    if n == |chunks| {
      assert chunks[..n] == chunks;
    } else {
      var m := |chunks| - 1;
      assert chunks[..m][..n] == chunks[..n];
      ContentPrefix(g, payloads, chunks[..m], n);
    }
  }

  // `part` sits in `whole` at `at`.
  predicate Placed(whole: Bytes, at: nat, part: Bytes) {
    at + |part| <= |whole| && whole[at..at + |part|] == part
  }

  // Chunk i occupies exactly its stretch of the file.
  lemma ContentAt(g: Geometry, payloads: seq<Bytes>, chunks: seq<Chunk>, i: nat)
    requires AllHaveLen(g, chunks) && i < |chunks|
    ensures TotalLen(g, chunks[..i + 1]) == TotalLen(g, chunks[..i]) + LogicalLen(g, chunks[i]).value
    ensures Placed(Content(g, payloads, chunks), TotalLen(g, chunks[..i]), Expand(g, payloads, chunks[i]))
  {
    hide Content, TotalLen, Expand, LogicalLen, Placed;
    ContentNext(g, payloads, chunks, i);
    ContentLen(g, payloads, chunks[..i]);
    ContentPrefix(g, payloads, chunks, i + 1);
    PlacedInPrefix(Content(g, payloads, chunks), Content(g, payloads, chunks[..i]), Expand(g, payloads, chunks[i]));
  }

  lemma PlacedInPrefix(whole: Bytes, front: Bytes, part: Bytes)
    requires front + part <= whole
    ensures Placed(whole, |front|, part)
  {
    assert whole[|front|..|front + part|] == (front + part)[|front|..];
  }

  lemma ContentNext(g: Geometry, payloads: seq<Bytes>, chunks: seq<Chunk>, i: nat)
    requires AllHaveLen(g, chunks) && i < |chunks|
    ensures TotalLen(g, chunks[..i + 1]) == TotalLen(g, chunks[..i]) + LogicalLen(g, chunks[i]).value
    ensures Content(g, payloads, chunks[..i + 1])
            == Content(g, payloads, chunks[..i]) + Expand(g, payloads, chunks[i])
  {
    hide Expand, LogicalLen;
    assert chunks[..i + 1][..i] == chunks[..i];
  }

  // ------------------------------------------------------- cumulative ends

  predicate SlotFits(table: seq<u32>, s: nat, count: nat) {
    s + 1 < |table| && table[s] <= table[s + 1] <= count
  }

  // Consecutive entries of the chunk table bound one file's chunks each.
  function FileChunks(chunks: seq<Chunk>, table: seq<u32>, s: nat): seq<Chunk>
    requires SlotFits(table, s, |chunks|)
  {
    chunks[table[s]..table[s + 1]]
  }

  ghost predicate FileMeasurable(g: Geometry, file: seq<Chunk>) {
    AllHaveLen(g, file) && TotalLen(g, file) <= U64_MAX
  }

  ghost predicate FileEndsRight(g: Geometry, file: seq<Chunk>, ends: seq<nat>) {
    && FileMeasurable(g, file)
    && |ends| == |file|
    && (forall i :: 0 <= i < |ends| ==> ends[i] == TotalLen(g, file[..i + 1]))
  }

  ghost predicate SlotEndsRight(g: Geometry, chunks: seq<Chunk>, table: seq<u32>, ends: seq<nat>, s: nat) {
    && |ends| == |chunks| && SlotFits(table, s, |chunks|)
    && FileEndsRight(g, FileChunks(chunks, table, s), ends[table[s]..table[s + 1]])
  }

  // `ends` records, for every chunk of every file, where in its file it stops.
  ghost predicate EndsRight(g: Geometry, chunks: seq<Chunk>, table: seq<u32>, ends: seq<nat>) {
    && |ends| == |chunks|
    && (forall s: nat :: s + 1 < |table| ==> SlotEndsRight(g, chunks, table, ends, s))
  }

  ghost predicate Indexable(g: Geometry, chunks: seq<Chunk>, table: seq<u32>) {
    forall s: nat :: s + 1 < |table| ==> SlotFits(table, s, |chunks|) && FileMeasurable(g, FileChunks(chunks, table, s))
  }

  // The table is built exactly when every file's chunks lie in the chunk list and
  // add up to a length that fits 64 bits.
  method BuildChunkEnds(g: Geometry, chunks: seq<Chunk>, table: seq<u32>) returns (r: Option<seq<nat>>)
    ensures r.Some? <==> Indexable(g, chunks, table)
    ensures r.Some? ==> EndsRight(g, chunks, table, r.value)
  {
    hide FileEndsRight, FileMeasurable;
    var ends: seq<nat> := seq<nat>(|chunks|, _ => 0);
    var s: nat := 0;
    while s + 1 < |table|
      invariant |ends| == |chunks| && (s == 0 || s < |table|)
      invariant forall k: nat :: k < s ==> SlotEndsRight(g, chunks, table, ends, k)
    {
      var start, end := table[s], table[s + 1];
      if end < start || end > |chunks| {
        assert !SlotFits(table, s, |chunks|);
        return None;
      }
      assert SlotFits(table, s, |chunks|);
      var filled := FileEnds(g, chunks, start, end, ends);
      if filled.None? {
        return None;
      }
      EarlierSlotsKept(g, chunks, table, ends, filled.value, s);
      ends := filled.value;
      s := s + 1;
    }
    RightMeansIndexable(g, chunks, table, ends);
    r := Some(ends);
  }

  // The ends of one file's chunks, written over its own stretch of the table.
  method FileEnds(g: Geometry, chunks: seq<Chunk>, start: nat, end: nat, ends: seq<nat>) returns (r: Option<seq<nat>>)
    requires start <= end <= |chunks| == |ends|
    ensures r.Some? <==> FileMeasurable(g, chunks[start..end])
    ensures r.Some? ==>
              && |r.value| == |ends| && r.value[..start] == ends[..start]
              && FileEndsRight(g, chunks[start..end], r.value[start..end])
  {
    hide FileEndsRight, FileMeasurable, LogicalLen;
    ghost var file := chunks[start..end];
    var filled: seq<nat> := ends;
    var cursor: nat := 0;
    var i: nat := start;
    NoChunks(g, file);
    assert filled[start..start] == [];
    while i < end
      invariant start <= i <= end && |filled| == |ends| && filled[..start] == ends[..start]
      invariant FileEndsRight(g, file[..i - start], filled[start..i])
      invariant Measured(g, file[..i - start], cursor)
    {
      var len := LogicalLen(g, chunks[i]);
      NextChunk(g, file, i - start, filled[start..i], cursor);
      if len.None? || cursor + len.value > U64_MAX {
        return None;
      }
      cursor := cursor + len.value;
      ghost var soFar := filled[start..i];
      filled := filled[i := cursor];
      i := i + 1;
      assert filled[start..i] == soFar + [cursor];
    }
    assert file[..end - start] == file;
    RightIsMeasurable(g, file, filled[start..end]);
    r := Some(filled);
  }

  ghost predicate Measured(g: Geometry, file: seq<Chunk>, n: nat) {
    FileMeasurable(g, file) && TotalLen(g, file) == n
  }

  lemma NoChunks(g: Geometry, file: seq<Chunk>)
    ensures FileEndsRight(g, file[..0], []) && Measured(g, file[..0], 0)
  {
  }

  lemma RightIsMeasurable(g: Geometry, file: seq<Chunk>, ends: seq<nat>)
    requires FileEndsRight(g, file, ends)
    ensures FileMeasurable(g, file)
  {
  }

  // One more chunk extends a file's ends by its own, or shows the file unmeasurable.
  lemma NextChunk(g: Geometry, file: seq<Chunk>, n: nat, ends: seq<nat>, cursor: nat)
    requires n < |file| && FileEndsRight(g, file[..n], ends) && Measured(g, file[..n], cursor)
    ensures LogicalLen(g, file[n]).None? ==> !FileMeasurable(g, file)
    ensures LogicalLen(g, file[n]).Some? ==>
              var end := cursor + LogicalLen(g, file[n]).value;
              if end > U64_MAX then !FileMeasurable(g, file)
              else Measured(g, file[..n + 1], end) && FileEndsRight(g, file[..n + 1], ends + [end])
  {
    hide LogicalLen;
    if LogicalLen(g, file[n]).Some? {
      var end := cursor + LogicalLen(g, file[n]).value;
      OneMoreLen(g, file, n);
      if end > U64_MAX {
        if FileMeasurable(g, file) {
          ContentPrefix(g, [], file, n + 1);
        }
      } else {
        EndsGrow(g, file, n, ends);
      }
    }
  }

  lemma OneMoreLen(g: Geometry, file: seq<Chunk>, n: nat)
    requires n < |file| && AllHaveLen(g, file[..n]) && LogicalLen(g, file[n]).Some?
    ensures AllHaveLen(g, file[..n + 1])
    ensures TotalLen(g, file[..n + 1]) == TotalLen(g, file[..n]) + LogicalLen(g, file[n]).value
  {
    assert file[..n + 1][..n] == file[..n];
    assert forall i :: 0 <= i < n ==> file[..n + 1][i] == file[..n][i];
  }

  lemma EndsGrow(g: Geometry, file: seq<Chunk>, n: nat, ends: seq<nat>)
    requires n < |file| && FileEndsRight(g, file[..n], ends) && FileMeasurable(g, file[..n + 1])
    ensures FileEndsRight(g, file[..n + 1], ends + [TotalLen(g, file[..n + 1])])
  {
    hide TotalLen, LogicalLen;
    var more := ends + [TotalLen(g, file[..n + 1])];
    forall i | 0 <= i <= n ensures more[i] == TotalLen(g, file[..n + 1][..i + 1]) {
      assert file[..n + 1][..i + 1] == if i < n then file[..n][..i + 1] else file[..n + 1];
    }
  }

  // Writing a later file's ends leaves the earlier files' alone.
  lemma EarlierSlotsKept(g: Geometry, chunks: seq<Chunk>, table: seq<u32>, ends: seq<nat>, ends': seq<nat>, s: nat)
    requires s < |table| && table[s] <= |ends| == |ends'| && ends[..table[s]] == ends'[..table[s]]
    requires forall k: nat :: k < s ==> SlotEndsRight(g, chunks, table, ends, k)
    ensures forall k: nat :: k < s ==> SlotEndsRight(g, chunks, table, ends', k)
  {
    forall k: nat | k < s ensures SlotEndsRight(g, chunks, table, ends', k) {
      assert SlotEndsRight(g, chunks, table, ends, k);
      EarlierSlots(g, chunks, table, ends, k, s);
      assert ends'[table[k]..table[k + 1]] == ends'[..table[s]][table[k]..table[k + 1]];
      assert ends[table[k]..table[k + 1]] == ends[..table[s]][table[k]..table[k + 1]];
    }
  }

  lemma RightMeansIndexable(g: Geometry, chunks: seq<Chunk>, table: seq<u32>, ends: seq<nat>)
    requires EndsRight(g, chunks, table, ends)
    ensures Indexable(g, chunks, table)
  {
    forall k: nat | k + 1 < |table|
      ensures SlotFits(table, k, |chunks|) && FileMeasurable(g, FileChunks(chunks, table, k))
    {
      assert SlotEndsRight(g, chunks, table, ends, k);
    }
  }

  lemma {:induction false} EarlierSlots(g: Geometry, chunks: seq<Chunk>, table: seq<u32>, ends: seq<nat>,
                                          a: nat, b: nat)
    requires a < b && b < |table|
    requires forall k: nat :: k < b ==> SlotEndsRight(g, chunks, table, ends, k)
    ensures table[a + 1] <= table[b]
    decreases b - a
  {
    if a + 1 < b {
      EarlierSlots(g, chunks, table, ends, a, b - 1);
      assert SlotEndsRight(g, chunks, table, ends, b - 1);
    }
  }
}
