/**
 Freezing a list of strings: each element says how long its string is and how far its bytes
 lie from the element's anchor; the bytes follow the elements. The anchor is where the
 elements start when they are packed bit by bit, and the element's own first byte when each
 takes whole bytes.
 */
module FrozenStrings {
  import opened Common
  import opened LittleEndian
  import opened Arithmetic
  import opened BitBuf
  import opened Layouts
  import opened Frozen
  import opened StringTables
  import opened FrozenLists
  import opened FrozenRoundTrip
  import opened FrozenWriter

  // Where string i starts, right behind those before it.
  function StartAt(f: Format, ss: seq<Bytes>, i: nat): nat
    requires i <= |ss|
  {
    FrozenLen(f, |ss|) + |Concat(ss[..i])|
  }

  // The byte that distances inside element i are counted from.
  function Anchor(f: Format, i: nat): nat {
    DataStart(f) + i * f.size
  }

  // Field 1 is the distance, field 2 the length.
  function StringRow(f: Format, ss: seq<Bytes>, i: nat): seq<nat>
    requires i < |ss|
  {
    [Max(0, StartAt(f, ss, i) - Anchor(f, i)), |ss[i]|]
  }

  function StringRows(f: Format, ss: seq<Bytes>): (rows: seq<seq<nat>>)
    ensures |rows| == |ss|
  {
    seq(|ss|, i requires 0 <= i < |ss| => StringRow(f, ss, i))
  }

  // The format has room for every length and every distance.
  predicate StringsFit(f: Format, ss: seq<Bytes>) {
    |f.ws| == 2 && Freezable(f, StringRows(f, ss))
  }

  function FreezeStrings(f: Format, ss: seq<Bytes>): Bytes
    requires StringsFit(f, ss) && Even(f, StringRows(f, ss))
  {
    Freeze(f, StringRows(f, ss)) + Concat(ss)
  }

  // --- What the writer stores ----------------------------------------------------------------------------------

  lemma {:induction false} ConcatAt(ss: seq<Bytes>, i: nat)
    requires i < |ss|
    ensures |Concat(ss[..i])| + |ss[i]| <= |Concat(ss)|
    ensures Concat(ss)[|Concat(ss[..i])|..|Concat(ss[..i])| + |ss[i]|] == ss[i]
  {
    var n := |ss| - 1;
    if i < n {
      ConcatAt(ss[..n], i);
      assert ss[..n][..i] == ss[..i];
    }
  }

  // Every element's anchor lies at or before the bytes behind the elements.
  lemma AnchorBefore(f: Format, ss: seq<Bytes>, i: nat)
    requires Placeable(f) && i < |ss|
    ensures Anchor(f, i) <= FrozenLen(f, |ss|) <= StartAt(f, ss, i)
  {
    MulStep(StrideOf(f), i, |ss|);
    MulStep(i, 8 * f.size, StrideOf(f));
    MulAssoc(i, f.size, 8);
    assert 8 * f.size <= StrideOf(f);
    hide StrideOf;
  }

  lemma ElementAnchor(f: Format, i: nat)
    requires Placeable(f)
    ensures ElementAt(ItemLayout(f, false), DataStart(f), i).byte == Anchor(f, i)
  {
    hide ItemFields, DataStart;
  }

  lemma FrozenLenIs(f: Format, ss: seq<Bytes>)
    requires StringsFit(f, ss) && Even(f, StringRows(f, ss))
    ensures |Freeze(f, StringRows(f, ss))| == FrozenLen(f, |ss|) < 0x800_0000_0000_0000
  {
    FrozenSize(f, StringRows(f, ss));
  }

  lemma BytesAreThere(f: Format, ss: seq<Bytes>, i: nat)
    requires StringsFit(f, ss) && Even(f, StringRows(f, ss)) && i < |ss|
    ensures StartAt(f, ss, i) + |ss[i]| <= |FreezeStrings(f, ss)|
    ensures FreezeStrings(f, ss)[StartAt(f, ss, i)..StartAt(f, ss, i) + |ss[i]|] == ss[i]
  {
    FrozenLenIs(f, ss);
    ConcatAt(ss, i);
    hide Freeze, FrozenLen, StringsFit, Even, Concat;
    SliceBehind(Freeze(f, StringRows(f, ss)), Concat(ss), |Concat(ss[..i])|, |ss[i]|);
  }

  lemma SliceBehind(a: Bytes, b: Bytes, at: nat, n: nat)
    requires at + n <= |b|
    ensures (a + b)[|a| + at..|a| + at + n] == b[at..at + n]
  {
  }

  lemma RowIs(f: Format, ss: seq<Bytes>, i: nat)
    requires Placeable(f) && i < |ss|
    ensures StringRows(f, ss)[i][0] == StartAt(f, ss, i) - Anchor(f, i) && StringRows(f, ss)[i][1] == |ss[i]|
    ensures |StringRows(f, ss)[i]| == 2
  {
    AnchorBefore(f, ss, i);
    hide StartAt, Anchor, Placeable;
  }

  lemma StringIsStored(f: Format, ss: seq<Bytes>, i: nat)
    requires StringsFit(f, ss) && Even(f, StringRows(f, ss)) && Placeable(f) && i < |ss|
    ensures StringStored(SchemaFor(f, false), FreezeStrings(f, ss), ElementAt(ItemLayout(f, false), DataStart(f), i),
                         ItemLayout(f, false), ss[i], StartAt(f, ss, i))
  {
    hide Freezable, Freeze, SchemaFor, ItemLayout, ElementAt, DataStart, Stores, Concat, StartAt, Anchor, Placeable;
    RowIs(f, ss, i);
    AnchorBefore(f, ss, i);
    ElementAnchor(f, i);
    CellStored(f, StringRows(f, ss), Concat(ss), i, 0);
    CellStored(f, StringRows(f, ss), Concat(ss), i, 1);
    BytesAreThere(f, ss, i);
  }

  function StartsOf(f: Format, ss: seq<Bytes>): (starts: seq<nat>)
    ensures |starts| == |ss|
  {
    seq(|ss|, i requires 0 <= i < |ss| => StartAt(f, ss, i))
  }

  lemma StoredFromStrings(schema: Schema, f: Format, l: Layout, p: Pos, item: Layout, blob: Bytes, ss: seq<Bytes>,
                          starts: seq<nat>, data: nat)
    requires Placeable(f) && Describes(schema, f, l) && ListLayout(schema, l) && |starts| == |ss|
    requires LayoutOf(schema, l.fields[3].layoutId) == Ok(item)
    requires RangeStored(schema, blob, p, l, data, |ss|) && p.byte <= |blob| && DataFits(blob, item, data, |ss|)
    requires forall i :: 0 <= i < |ss| ==>
               StringStored(schema, blob, ElementAt(item, data, i), item, ss[i], starts[i])
    ensures StringsStored(schema, blob, l, p, ss, starts, data)
  {
    hide ListLayout, RangeStored, DataFits, StringStored, ElementAt;
  }

  lemma FittingStrings(f: Format, ss: seq<Bytes>)
    requires StringsFit(f, ss)
    ensures Placeable(f) && Even(f, StringRows(f, ss)) && Freezable(f, StringRows(f, ss)) && |ss| <= 0x400_0000
  {
    hide StringRows;
    ExtentsNarrow(f, StringRows(f, ss));
  }

  lemma FrozenStringsIs(f: Format, ss: seq<Bytes>)
    requires StringsFit(f, ss) && Even(f, StringRows(f, ss))
    ensures FreezeStrings(f, ss) == Freeze(f, StringRows(f, ss)) + Concat(ss)
  {
  }

  lemma StartsAre(f: Format, ss: seq<Bytes>, i: nat)
    requires i < |ss|
    ensures StartsOf(f, ss)[i] == StartAt(f, ss, i)
  {
  }

  lemma FreezeIsStringsStored(schema: Schema, f: Format, l: Layout, p: Pos, ss: seq<Bytes>)
    requires StringsFit(f, ss) && Even(f, StringRows(f, ss)) && schema == SchemaFor(f, false)
    requires Placeable(f) && Describes(schema, f, l) && p.byte == 0 && p.bit == 0
    requires LayoutOf(schema, l.fields[3].layoutId) == Ok(ItemLayout(f, false))
    ensures StringsStored(schema, FreezeStrings(f, ss), l, p, ss, StartsOf(f, ss), DataStart(f))
  {
    hide *;
    FittingStrings(f, ss);
    FrozenStringsIs(f, ss);
    var blob, item, data := FreezeStrings(f, ss), ItemLayout(f, false), DataStart(f);
    RangeIsStored(schema, f, l, p, StringRows(f, ss), Concat(ss));
    ListLayoutIs(schema, f, l);
    DataIsIn(f, false, StringRows(f, ss), Concat(ss));
    forall i | 0 <= i < |ss|
      ensures StringStored(schema, blob, ElementAt(item, data, i), item, ss[i], StartsOf(f, ss)[i])
    {
      StringIsStored(f, ss, i);
      StartsAre(f, ss, i);
    }
    StoredFromStrings(schema, f, l, p, item, blob, ss, StartsOf(f, ss), data);
  }

  lemma FrozenStringsAddressable(f: Format, ss: seq<Bytes>)
    requires StringsFit(f, ss) && Even(f, StringRows(f, ss)) && |Concat(ss)| <= U32_MAX
    ensures Addressable(FreezeStrings(f, ss))
  {
    FrozenLenIs(f, ss);
    hide Freeze, FrozenLen, StringsFit, Concat;
  }

  // Any strings, frozen with elements packed bit by bit or byte-aligned, come back as a table that holds each under
  // its index, exactly when the list's distance was not written in one bit.
  lemma FrozenStringsDecodedIff(f: Format, ss: seq<Bytes>)
    requires StringsFit(f, ss) && ss != [] && |Concat(ss)| <= U32_MAX
    ensures Even(f, StringRows(f, ss)) && Placeable(f)
    ensures Strings(SchemaFor(f, false), FreezeStrings(f, ss), RootOf(), 1) == Ok(TableOf(ss)) <==> f.distance != 1
    ensures forall i: nat :: Get(TableOf(ss), i) == if i < |ss| then Some(ss[i]) else None
  {
    assert |Concat(ss)| <= 0xFFFF_FFFF;
    hide *;
    FittingStrings(f, ss);
    var schema, blob, l, p := SchemaFor(f, false), FreezeStrings(f, ss), ListOf(f), Child(ROOT, RootOf().fields[1]);
    ListIsThere(schema, f, false, blob);
    ListLayoutIs(schema, f, l);
    FreezeIsStringsStored(schema, f, l, p, ss);
    FrozenStringsAddressable(f, ss);
    StringsDecodedIff(schema, blob, RootOf(), 1, Bare, l, p, ss, StartsOf(f, ss), DataStart(f));
    forall i: nat ensures Get(TableOf(ss), i) == if i < |ss| then Some(ss[i]) else None {
      GetFindsEach(ss, i);
    }
  }

  // --- There is room for any strings ---------------------------------------------------------------------------

  // Everything at 64 bits, elements packed bit by bit or in `size` bytes each.
  function RoomyFormat(size: nat): Format {
    Format(64, 64, size, [64, 64], [true, true])
  }

  lemma RoomyIsPlaceable(size: nat)
    requires size == 0 || 16 <= size <= U32_MAX
    ensures Placeable(RoomyFormat(size)) && Pow(2, 64) == 0x1_0000_0000_0000_0000
  {
    var ws: seq<nat> := [64, 64];
    assert ws[..1] == [64] && ws[..1][..0] == [];
    assert Sum(ws) == Sum(ws[..1]) + 64 && Sum(ws[..1]) == Sum(ws[..1][..0]) + 64;
    Pow64();
    hide Pow;
  }

  lemma RoomyRow(f: Format, ss: seq<Bytes>, i: nat)
    requires f.ws == [64, 64] && f.wide == [true, true] && Placeable(f) && |ss| <= LIST_CAP && i < |ss|
    requires |Concat(ss)| <= U32_MAX && Pow(2, 64) == 0x1_0000_0000_0000_0000
    ensures RowFits(f, StringRows(f, ss)[i])
  {
    RowIs(f, ss, i);
    ConcatAt(ss, i);
    StrideBound(f, |ss|);
    hide Placeable, StrideOf, Concat, Pow, StringRows, Anchor;
  }

  lemma RoomyFormatFits(size: nat, ss: seq<Bytes>)
    requires size == 0 || 16 <= size <= U32_MAX
    requires |ss| <= LIST_CAP && |Concat(ss)| <= U32_MAX
    ensures StringsFit(RoomyFormat(size), ss)
  {
    var f := RoomyFormat(size);
    RoomyIsPlaceable(size);
    hide Placeable, RowFits, Concat, Pow;
    forall i | 0 <= i < |ss| ensures RowFits(f, StringRows(f, ss)[i]) {
      RoomyRow(f, ss, i);
    }
  }
}
