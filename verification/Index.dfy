/** The optional section index: the last section, listing every section's type and offset, itself included. */
module Index {
  import opened Common
  import opened LittleEndian
  import opened Header
  import opened Sections

  const OFFSET_SPAN: nat := 0x1_0000_0000_0000

  datatype Entry = Entry(kind: SectionType, offset: nat)

  datatype IndexTable = IndexTable(entries: seq<Entry>, fileOffset: nat)

  function EntryOf(raw: u64): Entry {
    Entry(SectionTypeOf(raw / OFFSET_SPAN), raw % OFFSET_SPAN)
  }

  function RawAt(payload: Bytes, i: nat): u64
    requires 8 * i + 8 <= |payload|
  {
    FieldBounds(payload, 8 * i);
    Field(payload, 8 * i, 8)
  }

  function EntriesOf(payload: Bytes): (es: seq<Entry>)
    ensures |es| == |payload| / 8
  {
    seq(|payload| / 8, i requires 0 <= i < |payload| / 8 => EntryOf(RawAt(payload, i)))
  }

  predicate Rising(es: seq<Entry>) {
    forall i :: 0 < i < |es| ==> es[i - 1].offset < es[i].offset
  }

  predicate EntriesFit(payload: Bytes) {
    && |payload| % 8 == 0 && |payload| > 0 && Rising(EntriesOf(payload))
    && EntriesOf(payload)[|payload| / 8 - 1].kind == SectionIndex
  }

  function ParsedEntries(payload: Bytes, fileOffset: nat): Result<IndexTable, Error> {
    if EntriesFit(payload) then Ok(IndexTable(EntriesOf(payload), fileOffset)) else Err(CorruptIndex)
  }

  method ParseEntries(payload: Bytes, fileOffset: nat) returns (r: Result<IndexTable, Error>)
    ensures r == ParsedEntries(payload, fileOffset)
  {
    if |payload| % 8 != 0 {
      return Err(CorruptIndex);
    }
    var count := |payload| / 8;
    if count == 0 {
      return Err(CorruptIndex);
    }
    var entries: seq<Entry> := [];
    var prev: Option<nat> := None;
    for i := 0 to count
      invariant entries == EntriesOf(payload)[..i] && Rising(entries)
      invariant prev == if i == 0 then None else Some(entries[i - 1].offset)
    {
      var entry := EntryOf(RawAt(payload, i));
      assert entry == EntriesOf(payload)[i];
      if prev.Some? && entry.offset <= prev.value {
        assert EntriesOf(payload)[i - 1] == entries[i - 1];
        return Err(CorruptIndex);
      }
      prev := Some(entry.offset);
      entries := entries + [entry];
    }
    assert entries == EntriesOf(payload);
    if entries[count - 1].kind != SectionIndex {
      return Err(CorruptIndex);
    }
    return Ok(IndexTable(entries, fileOffset));
  }

  function Tail(source: Bytes): u64
    requires |source| >= 8
  {
    FieldBounds(source, |source| - 8);
    Field(source, |source| - 8, 8)
  }

  // Looks at the last eight bytes; without the index's mark there the image has no index.
  function FromSource(source: Bytes, base: nat): Result<Option<IndexTable>, Error> {
    if |source| < 8 then Ok(None)
    else if Tail(source) / OFFSET_SPAN != SectionTypeCode(SectionIndex) then Ok(None)
    else
      var at := base + Tail(source) % OFFSET_SPAN;
      if at > U64_MAX || at + HEADER_LEN > |source| then Err(CorruptIndex)
      else match Parse(source[at..at + HEADER_LEN], at)
        case Err(e) => Err(e)
        case Ok(h) =>
          if h.sectionType != SectionIndex || h.compression != NoCompression
             || at + HEADER_LEN + h.payloadLen > U64_MAX || at + HEADER_LEN + h.payloadLen != |source|
          then Err(CorruptIndex)
          else match ParsedEntries(source[at + HEADER_LEN..], at)
            case Err(e) => Err(e)
            case Ok(t) => Ok(Some(t))
  }

  // An image has no index exactly when it does not end in the index's mark; anything else is an index or an error.
  lemma NoIndexIff(source: Bytes, base: nat)
    ensures FromSource(source, base) == Ok(None)
            <==> |source| < 8 || EntryOf(Tail(source)).kind != SectionIndex
  {
    hide Parse, ParsedEntries, Tail;
    if |source| >= 8 {
      CodesBack(Tail(source) / OFFSET_SPAN);
    }
  }

  // The last entry of a payload is read from the image's last eight bytes.
  lemma LastEntryIsTail(source: Bytes, from: nat)
    requires from + 8 <= |source| && (|source| - from) % 8 == 0
    ensures EntriesOf(source[from..])[(|source| - from) / 8 - 1] == EntryOf(Tail(source))
  {
    var p := source[from..];
    var last := |p| / 8 - 1;
    assert 8 * last + 8 == |p|;
    assert p[8 * last..8 * last + 8] == source[|source| - 8..|source| - 8 + 8];
    assert EntriesOf(p)[last] == EntryOf(RawAt(p, last));
  }

  // An index that is accepted rises strictly, and its last entry is the index section itself, offset and all,
  // although the code looks at no more than that entry's type.
  lemma AcceptedIndexIsSound(source: Bytes, base: nat)
    requires |source| <= U64_MAX && FromSource(source, base).Ok? && FromSource(source, base).value.Some?
    ensures var t := FromSource(source, base).value.value;
            && t.entries != [] && Rising(t.entries)
            && t.entries[|t.entries| - 1] == Entry(SectionIndex, t.fileOffset - base)
            && t.fileOffset + HEADER_LEN + 8 * |t.entries| == |source|
  {
    var at := base + Tail(source) % OFFSET_SPAN;
    hide Parse, Field;
    LastEntryIsTail(source, at + HEADER_LEN);
  }

  // And a section walk entered at the offset it gives finds the index, and nothing after it.
  lemma IndexIsTheLastSection(source: Bytes, base: nat)
    requires |source| <= U64_MAX && FromSource(source, base).Ok? && FromSource(source, base).value.Some?
    ensures var at := FromSource(source, base).value.value.fileOffset;
            && at < |source| && HeaderAt(source, at).Ok? && HeaderAt(source, at).value.sectionType == SectionIndex
            && HeaderAt(source, at).value.compression == NoCompression
            && Walk(source, at) == Ok([Record(at, HeaderAt(source, at).value)])
  {
    hide Parse, Field, ParsedEntries, Tail;
    var at := base + Tail(source) % OFFSET_SPAN;
    ParsedKeepsOffset(source[at + HEADER_LEN..], at);
    assert Walk(source, |source|) == Ok([]);
    var r := Record(at, HeaderAt(source, at).value);
    assert [r] + [] == [r];
  }

  lemma ParsedKeepsOffset(payload: Bytes, at: nat)
    ensures ParsedEntries(payload, at).Ok? ==> ParsedEntries(payload, at).value.fileOffset == at
  {
  }

  // --- What is written -----------------------------------------------------------------------------------------

  function RawOf(e: Entry): nat {
    SectionTypeCode(e.kind) * OFFSET_SPAN + e.offset
  }

  predicate Storable(e: Entry) {
    e.offset < OFFSET_SPAN && SectionTypeOf(SectionTypeCode(e.kind)) == e.kind
  }

  function Listing(es: seq<Entry>): (r: Bytes)
    ensures |r| == 8 * |es|
  {
    if es == [] then [] else LeBytes(RawOf(es[0]), 8) + Listing(es[1..])
  }

  lemma RawBack(e: Entry)
    requires Storable(e)
    ensures RawOf(e) < Pow(256, 8) && RawOf(e) <= U64_MAX && EntryOf(RawOf(e)) == e
  {
    Powers();
    var c: nat := SectionTypeCode(e.kind);
    assert c * OFFSET_SPAN <= 0xFFFF * OFFSET_SPAN;
  }

  lemma {:induction false} ListingAt(es: seq<Entry>, i: nat)
    requires i < |es|
    ensures Listing(es)[8 * i..8 * i + 8] == LeBytes(RawOf(es[i]), 8)
  {
    var head := LeBytes(RawOf(es[0]), 8);
    if i > 0 {
      ListingAt(es[1..], i - 1);
      assert Listing(es)[8 * i..8 * i + 8] == Listing(es[1..])[8 * (i - 1)..8 * (i - 1) + 8];
    }
  }

  lemma EntriesInvertListing(es: seq<Entry>)
    requires forall i :: 0 <= i < |es| ==> Storable(es[i])
    ensures EntriesOf(Listing(es)) == es
  {
    forall i | 0 <= i < |es| ensures EntriesOf(Listing(es))[i] == es[i] {
      RawBack(es[i]);
      ListingAt(es, i);
      LeOfBytes(RawOf(es[i]), 8);
    }
  }

  // One entry for every section, in order.
  function EntriesFor(rs: seq<Record>, base: nat): (es: seq<Entry>)
    requires forall i :: 0 <= i < |rs| ==> rs[i].offset >= base
    ensures |es| == |rs|
  {
    seq(|rs|, i requires 0 <= i < |rs| => Entry(rs[i].header.sectionType, rs[i].offset - base))
  }

  lemma {:induction false} RecordsRise(ss: seq<Section>, at: nat)
    requires AllProper(ss)
    ensures forall i :: 0 < i < |ss| ==> RecordsOf(ss, at)[i - 1].offset < RecordsOf(ss, at)[i].offset
    ensures forall i :: 0 <= i < |ss| ==>
              at <= RecordsOf(ss, at)[i].offset && RecordsOf(ss, at)[i].header == ss[i].header
    ensures ss != [] ==> RecordsOf(ss, at)[0].offset == at
  {
    hide Proper, Written;
    if ss != [] {
      assert Proper(ss[0]);
      WrittenLen(ss[0]);
      RecordsRise(ss[1..], at + |Written(ss[0])|);
    }
  }

  lemma {:induction false} AllWrittenAppend(ss: seq<Section>, s: Section)
    ensures AllWritten(ss + [s]) == AllWritten(ss) + Written(s)
  {
    hide Written;
    if ss == [] {
      assert (ss + [s])[1..] == [];
    } else {
      AllWrittenAppend(ss[1..], s);
      assert (ss + [s])[1..] == ss[1..] + [s];
    }
  }

  lemma {:induction false} LastRecord(ss: seq<Section>, s: Section, at: nat)
    ensures RecordsOf(ss + [s], at)[|ss|] == Record(at + |AllWritten(ss)|, s.header)
  {
    hide Written;
    if ss != [] {
      LastRecord(ss[1..], s, at + |Written(ss[0])|);
      assert (ss + [s])[1..] == ss[1..] + [s];
    }
  }

  predicate Indexed(ss: seq<Section>, base: nat) {
    && ss != [] && AllProper(ss)
    && (forall i :: 0 <= i < |ss| ==> base <= RecordsOf(ss, base)[i].offset < base + OFFSET_SPAN)
    && var ix := ss[|ss| - 1];
    && ix.header.sectionType == SectionIndex && ix.header.compression == NoCompression
    && ix.payload == Listing(EntriesFor(RecordsOf(ss, base), base))
  }

  lemma ListingFits(ss: seq<Section>, base: nat, at: nat)
    requires Indexed(ss, base)
    ensures var es := EntriesFor(RecordsOf(ss, base), base); ParsedEntries(Listing(es), at) == Ok(IndexTable(es, at))
  {
    var es := EntriesFor(RecordsOf(ss, base), base);
    RecordsRise(ss, base);
    hide Written, Listing, RecordsOf;
    forall i | 0 <= i < |es| ensures Storable(es[i]) {
      assert Proper(ss[i]);
    }
    EntriesInvertListing(es);
  }

  lemma IndexSectionParses(source: Bytes, at: nat, ix: Section)
    requires at <= |source| <= U64_MAX && source[at..] == Written(ix) && Proper(ix)
    ensures at + HEADER_LEN + ix.header.payloadLen == |source|
    ensures Parse(source[at..at + HEADER_LEN], at) == Ok(ix.header) && source[at + HEADER_LEN..] == ix.payload
  {
    assert source[at..] == Written(ix) + [];
    FoundWhereWritten(source, at, ix, []);
    WrittenLen(ix);
    SerializedFields(ix.header);
    assert source[at + HEADER_LEN..] == source[at..][HEADER_LEN..] == ix.payload;
  }

  lemma IndexWhereWritten(source: Bytes, base: nat, at: nat, ix: Section, es: seq<Entry>)
    requires at <= |source| <= U64_MAX && base <= at && source[at..] == Written(ix) && Proper(ix)
    requires ix.header.sectionType == SectionIndex && ix.header.compression == NoCompression
    requires ParsedEntries(ix.payload, at) == Ok(IndexTable(es, at))
    requires es != [] && es[|es| - 1] == Entry(SectionIndex, at - base)
    ensures FromSource(source, base) == Ok(Some(IndexTable(es, at)))
  {
    hide Parse, Field, ParsedEntries, Serialized, Proper, Written, Tail, SectionTypeOf, SectionTypeCode, EntriesOf,
      EntryOf;
    IndexSectionParses(source, at, ix);
    ParsedIsListed(ix.payload, at);
    LastEntryIsTail(source, at + HEADER_LEN);
    TailIs(Tail(source), at - base);
    assert |source[at..at + HEADER_LEN]| == HEADER_LEN;
  }

  lemma ParsedIsListed(payload: Bytes, at: nat)
    requires ParsedEntries(payload, at).Ok?
    ensures ParsedEntries(payload, at).value.entries == EntriesOf(payload) && |payload| % 8 == 0
  {
  }

  lemma TailIs(raw: u64, offset: nat)
    requires EntryOf(raw) == Entry(SectionIndex, offset)
    ensures raw / OFFSET_SPAN == SectionTypeCode(SectionIndex) && raw % OFFSET_SPAN == offset
  {
    CodesBack(raw / OFFSET_SPAN);
  }

  lemma IndexPlace(prefix: Bytes, ss: seq<Section>) returns (at: nat)
    requires Indexed(ss, |prefix|)
    ensures RecordsOf(ss, |prefix|)[|ss| - 1] == Record(at, ss[|ss| - 1].header)
    ensures |prefix| <= at <= |prefix + AllWritten(ss)|
    ensures (prefix + AllWritten(ss))[at..] == Written(ss[|ss| - 1])
  {
    hide Written, Proper, Listing;
    var front, ix := ss[..|ss| - 1], ss[|ss| - 1];
    assert ss == front + [ix];
    at := |prefix| + |AllWritten(front)|;
    AllWrittenAppend(front, ix);
    LastRecord(front, ix, |prefix|);
    assert prefix + AllWritten(ss) == prefix + AllWritten(front) + Written(ix);
  }

  // The index of an image written with one is read back whole, and lists exactly the sections a walk finds.
  lemma IndexInvertsWriting(prefix: Bytes, ss: seq<Section>)
    requires Indexed(ss, |prefix|) && |prefix + AllWritten(ss)| <= U64_MAX
    ensures var source := prefix + AllWritten(ss);
            && Walk(source, |prefix|) == Ok(RecordsOf(ss, |prefix|))
            && FromSource(source, |prefix|)
               == Ok(Some(IndexTable(EntriesFor(RecordsOf(ss, |prefix|), |prefix|),
                                     RecordsOf(ss, |prefix|)[|ss| - 1].offset)))
  {
    WalkInvertsWriting(prefix, ss);
    var at := IndexPlace(prefix, ss);
    ListingFits(ss, |prefix|, at);
    hide FromSource, Walk, Written, Listing, ParsedEntries, AllWritten, Proper, RecordsOf;
    assert Proper(ss[|ss| - 1]);
    IndexWhereWritten(prefix + AllWritten(ss), |prefix|, at, ss[|ss| - 1],
                      EntriesFor(RecordsOf(ss, |prefix|), |prefix|));
  }
}
