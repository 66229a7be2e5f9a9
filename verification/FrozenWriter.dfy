/**
 A writer in full. It puts a list's count and distance in front, at widths of their own, and
 the elements right behind them: bit by bit, or each in whole bytes. Structs and integers
 are frozen here, strings in `FrozenStrings`.
 */
module FrozenWriter {
  import opened Common
  import opened LittleEndian
  import opened Arithmetic
  import opened BitBuf
  import opened Layouts
  import opened Frozen
  import opened FrozenLists
  import opened FrozenRoundTrip

  // A value packed anywhere among others is held where the widths before it end, whatever bytes follow.
  lemma PackedIsHeld(a: seq<Extent>, e: Extent, b: seq<Extent>, n: nat, back: Bytes)
    requires e.width <= 64 && TotalWidth(a + [e] + b) <= 8 * n && 8 * n <= U64_MAX
    requires forall i :: 0 <= i < |a + [e] + b| ==> Narrow((a + [e] + b)[i])
    ensures Held(PackedBytes(a + [e] + b, n) + back, TotalWidth(a), e.width, e.value)
  {
    var es := a + [e] + b;
    var blob := PackedBytes(es, n);
    assert es[|a|] == e && es[..|a|] == a;
    ReadInvertsPacking([], es, n, back, |a|);
    assert [] + blob + back == blob + back;
    assert Narrow(es[|a|]);
    WidthsUpTo(es, |a|);
    hide Bits;
  }

  lemma {:induction false} WidthConcat(a: seq<Extent>, b: seq<Extent>)
    ensures TotalWidth(a + b) == TotalWidth(a) + TotalWidth(b)
  {
    if a == [] {
      assert a + b == b;
    } else {
      WidthConcat(a[1..], b);
      assert (a + b)[1..] == a[1..] + b;
    }
  }

  // --- The writer's choices ------------------------------------------------------------------------------------

  // Widths of the count, of the distance and of each field; the bytes an element takes, or 0 for elements packed bit
  // by bit; and which fields are wanted at 64 bits.
  datatype Format = Format(count: nat, distance: nat, size: nat, ws: seq<nat>, wide: seq<bool>)

  function Sum(ws: seq<nat>): nat {
    if ws == [] then 0 else Sum(ws[..|ws| - 1]) + ws[|ws| - 1]
  }

  // The elements start at a byte, the distance to them fits its width, and a schema can express every place.
  predicate Placeable(f: Format) {
    && 1 <= f.count <= 64 && 1 <= f.distance <= 64 && (f.count + f.distance) % 8 == 0
    && DataStart(f) < Pow(2, f.distance)
    && |f.ws| <= 64 && |f.wide| == |f.ws| && (forall c :: 0 <= c < |f.ws| ==> f.ws[c] <= 64) && Sum(f.ws) <= 0x7FFF
    && f.size <= U32_MAX && (f.size > 0 ==> Sum(f.ws) <= 8 * f.size)
  }

  function DataStart(f: Format): nat {
    (f.count + f.distance) / 8
  }

  // What fills a byte-strided element up.
  function Padding(f: Format): nat {
    if f.size == 0 then 0 else Max(0, 8 * f.size - Sum(f.ws))
  }

  function StrideOf(f: Format): nat {
    Sum(f.ws) + Padding(f)
  }

  predicate RowFits(f: Format, row: seq<nat>) {
    && |row| == |f.ws| == |f.wide|
    && forall c :: 0 <= c < |f.ws| ==> row[c] < Pow(2, f.ws[c])
  }

  predicate Freezable(f: Format, rows: seq<seq<nat>>) {
    && Placeable(f) && |rows| <= LIST_CAP && |rows| < Pow(2, f.count)
    && forall i :: 0 <= i < |rows| ==> RowFits(f, rows[i])
  }

  // --- Rows ----------------------------------------------------------------------------------------------------

  function Cells(f: Format, row: seq<nat>): (es: seq<Extent>)
    requires |row| == |f.ws|
    ensures |es| == |f.ws| + 1
  {
    seq(|f.ws|, c requires 0 <= c < |f.ws| => Extent(row[c], f.ws[c])) + [Extent(0, Padding(f))]
  }

  predicate Even(f: Format, rows: seq<seq<nat>>) {
    forall i :: 0 <= i < |rows| ==> |rows[i]| == |f.ws|
  }

  function AllCells(f: Format, rows: seq<seq<nat>>): (es: seq<Extent>)
    requires Even(f, rows)
  {
    if rows == [] then [] else Cells(f, rows[0]) + AllCells(f, rows[1..])
  }

  lemma {:induction false} CellsUpTo(f: Format, row: seq<nat>, c: nat)
    requires |row| == |f.ws| && c <= |f.ws|
    ensures TotalWidth(Cells(f, row)[..c]) == Sum(f.ws[..c])
  {
    if c > 0 {
      CellsUpTo(f, row, c - 1);
      var es := Cells(f, row);
      assert es[..c] == es[..c - 1] + [es[c - 1]];
      WidthConcat(es[..c - 1], [es[c - 1]]);
      assert f.ws[..c][..c - 1] == f.ws[..c - 1];
    }
  }

  lemma CellsWidth(f: Format, row: seq<nat>)
    requires |row| == |f.ws|
    ensures TotalWidth(Cells(f, row)) == StrideOf(f)
  {
    var es := Cells(f, row);
    CellsUpTo(f, row, |f.ws|);
    assert es == es[..|f.ws|] + [es[|f.ws|]] && f.ws[..|f.ws|] == f.ws;
    WidthConcat(es[..|f.ws|], [es[|f.ws|]]);
  }

  lemma {:induction false} AllCellsWidth(f: Format, rows: seq<seq<nat>>)
    requires Even(f, rows)
    ensures TotalWidth(AllCells(f, rows)) == |rows| * StrideOf(f)
  {
    hide StrideOf, Cells;
    if rows != [] {
      AllCellsWidth(f, rows[1..]);
      WidthConcat(Cells(f, rows[0]), AllCells(f, rows[1..]));
      CellsWidth(f, rows[0]);
      MulAdd(StrideOf(f), |rows| - 1, 1);
    }
  }

  lemma {:induction false} AllCellsSplit(f: Format, rows: seq<seq<nat>>, i: nat)
    requires Even(f, rows) && i <= |rows|
    ensures AllCells(f, rows) == AllCells(f, rows[..i]) + AllCells(f, rows[i..])
  {
    if i > 0 {
      AllCellsSplit(f, rows[1..], i - 1);
      assert rows[..i][1..] == rows[1..][..i - 1];
    } else {
      assert rows[i..] == rows;
    }
  }

  lemma CellsNarrow(f: Format, row: seq<nat>)
    requires RowFits(f, row)
    ensures forall k :: 0 <= k < |Cells(f, row)| ==> Narrow(Cells(f, row)[k])
  {
  }

  lemma {:induction false} AllCellsNarrow(f: Format, rows: seq<seq<nat>>)
    requires forall i :: 0 <= i < |rows| ==> RowFits(f, rows[i])
    ensures Even(f, rows) && forall k :: 0 <= k < |AllCells(f, rows)| ==> Narrow(AllCells(f, rows)[k])
  {
    if rows != [] {
      AllCellsNarrow(f, rows[1..]);
      CellsNarrow(f, rows[0]);
    }
  }

  // --- The frozen list -----------------------------------------------------------------------------------------

  lemma {:induction false} SumUpTo(ws: seq<nat>, c: nat)
    requires c <= |ws|
    ensures Sum(ws[..c]) <= Sum(ws)
  {
    if c == |ws| {
      assert ws[..c] == ws;
    } else {
      assert ws[..|ws| - 1][..c] == ws[..c];
      SumUpTo(ws[..|ws| - 1], c);
    }
  }

  function Integral(bits: width): Layout {
    Layout(0, bits, map[], [])
  }

  predicate Kept(ws: seq<nat>, id: i16) {
    1 <= id <= |ws| && ws[id - 1] > 0
  }

  // Fields 1, 2, ... of an item, each at the sum of the widths before it; one of no width is left out.
  function ItemFields(f: Format): map<i16, Field>
    requires Placeable(f)
  {
    map id: i16 | 1 <= id <= |f.ws| && Kept(f.ws, id) :: FieldAt(f, id - 1)
  }

  function FieldAt(f: Format, c: nat): Field
    requires Placeable(f) && c < |f.ws|
  {
    SumUpTo(f.ws, c);
    Field(5 + c, 0 - Sum(f.ws[..c]))
  }

  // An item of a list of structs or strings, or, without fields, of integers.
  function ItemLayout(f: Format, plain: bool): Layout
    requires Placeable(f)
  {
    Layout(f.size, Sum(f.ws), if plain then map[] else ItemFields(f), [])
  }

  // Count first, distance after it.
  function ListOf(f: Format): (l: Layout)
    requires Placeable(f)
    ensures IsList(f, l) && l.fields.Keys == {1, 2, 3}
  {
    Layout(DataStart(f), 0, map[1 := Field(4, 0 - f.count), 2 := Field(2, 0), 3 := Field(3, 0)], [])
  }

  predicate IsList(f: Format, l: Layout)
    requires f.count <= 64
  {
    && 1 in l.fields && l.fields[1] == Field(4, 0 - f.count)
    && 2 in l.fields && l.fields[2] == Field(2, 0)
    && 3 in l.fields && l.fields[3] == Field(3, 0)
  }

  function RootOf(): (l: Layout)
    ensures 1 in l.fields && l.fields[1] == Field(1, 0)
  {
    Layout(8, 0, map[1 := Field(1, 0)], [])
  }

  function LayoutWithId(f: Format, plain: bool, id: i16): Layout
    requires Placeable(f) && 0 <= id < 5 + |f.ws|
  {
    if id == 0 then RootOf()
    else if id == 1 then ListOf(f)
    else if id == 2 then Integral(f.count)
    else if id == 3 then ItemLayout(f, plain)
    else if id == 4 then Integral(f.distance)
    else Integral(f.ws[id - 5])
  }

  function SchemaFor(f: Format, plain: bool): Schema
    requires Placeable(f)
  {
    Schema(1, false, map id: i16 | 0 <= id < 5 + |f.ws| :: LayoutWithId(f, plain, id), 0)
  }

  function Heading(f: Format, n: nat): seq<Extent> {
    [Extent(n, f.count), Extent(DataStart(f), f.distance)]
  }

  function Extents(f: Format, rows: seq<seq<nat>>): seq<Extent>
    requires Even(f, rows)
  {
    Heading(f, |rows|) + AllCells(f, rows)
  }

  // The bit row i starts at, and the bytes n rows take with what precedes them.
  function RowBit(f: Format, i: nat): nat {
    f.count + f.distance + i * StrideOf(f)
  }

  function FrozenLen(f: Format, n: nat): nat {
    RowBit(f, n) / 8 + 1
  }

  // Count, distance, and the rows right behind them.
  function Freeze(f: Format, rows: seq<seq<nat>>): Bytes
    requires Even(f, rows)
  {
    PackedBytes(Extents(f, rows), FrozenLen(f, |rows|))
  }

  function WantsFor(f: Format): seq<Want>
    requires |f.ws| == |f.wide| <= 64
  {
    seq(|f.ws|, c requires 0 <= c < |f.ws| => Want(c + 1, f.wide[c]))
  }

  // --- What the writer stores ----------------------------------------------------------------------------------

  lemma HeadingWidth(f: Format, n: nat)
    ensures TotalWidth(Heading(f, n)) == f.count + f.distance && TotalWidth([Extent(n, f.count)]) == f.count
  {
    var count, distance := [Extent(n, f.count)], [Extent(DataStart(f), f.distance)];
    assert count[1..] == [] && distance[1..] == [];
    WidthConcat(count, distance);
    assert count + distance == Heading(f, n);
  }

  lemma StrideBound(f: Format, n: nat)
    requires Placeable(f) && n <= LIST_CAP
    ensures n * StrideOf(f) <= 0x7_FFFF_FFF8 * LIST_CAP
  {
    MulStep(n, StrideOf(f), 0x7_FFFF_FFF8);
    MulStep(0x7_FFFF_FFF8, n, LIST_CAP);
  }

  lemma FrozenSize(f: Format, rows: seq<seq<nat>>)
    requires Freezable(f, rows) && Even(f, rows)
    ensures TotalWidth(Extents(f, rows)) == RowBit(f, |rows|) < 8 * FrozenLen(f, |rows|) < 0x4000_0000_0000_0000
    ensures |Freeze(f, rows)| == FrozenLen(f, |rows|)
  {
    AllCellsWidth(f, rows);
    HeadingWidth(f, |rows|);
    WidthConcat(Heading(f, |rows|), AllCells(f, rows));
    StrideBound(f, |rows|);
    hide Heading, StrideOf, RowFits;
  }

  lemma ExtentsNarrow(f: Format, rows: seq<seq<nat>>)
    requires Freezable(f, rows)
    ensures Even(f, rows) && forall k :: 0 <= k < |Extents(f, rows)| ==> Narrow(Extents(f, rows)[k])
  {
    AllCellsNarrow(f, rows);
    hide RowFits, DataStart, Pow;
  }

  // Row i, column c, with what is packed before and after it.
  lemma CellAmong(f: Format, rows: seq<seq<nat>>, i: nat, c: nat) returns (a: seq<Extent>, b: seq<Extent>)
    requires Even(f, rows) && i < |rows| && c < |f.ws|
    ensures AllCells(f, rows) == a + [Extent(rows[i][c], f.ws[c])] + b
    ensures TotalWidth(a) == i * StrideOf(f) + Sum(f.ws[..c])
  {
    var cells := Cells(f, rows[i]);
    var before := AllCells(f, rows[..i]);
    AllCellsSplit(f, rows, i);
    AllCellsWidth(f, rows[..i]);
    CellsUpTo(f, rows[i], c);
    WidthConcat(before, cells[..c]);
    assert AllCells(f, rows[i..]) == cells + AllCells(f, rows[i..][1..]);
    assert cells[c] == Extent(rows[i][c], f.ws[c]);
    hide Sum, TotalWidth, AllCells, Cells, StrideOf;
    a := before + cells[..c];
    b := cells[c + 1..] + AllCells(f, rows[i..][1..]);
    SplitAt(before, cells, c, AllCells(f, rows[i..][1..]));
  }

  lemma SplitAt(before: seq<Extent>, cells: seq<Extent>, c: nat, rest: seq<Extent>)
    requires c < |cells|
    ensures before + (cells + rest) == (before + cells[..c]) + [cells[c]] + (cells[c + 1..] + rest)
  {
  }

  lemma CellHeld(f: Format, rows: seq<seq<nat>>, back: Bytes, i: nat, c: nat)
    requires Freezable(f, rows) && Even(f, rows) && i < |rows| && c < |f.ws|
    ensures Held(Freeze(f, rows) + back, RowBit(f, i) + Sum(f.ws[..c]), f.ws[c], rows[i][c])
  {
    ExtentsNarrow(f, rows);
    FrozenSize(f, rows);
    HeadingWidth(f, |rows|);
    var heading := Heading(f, |rows|);
    var a, b := CellAmong(f, rows, i, c);
    WidthConcat(heading, a);
    assert Extents(f, rows) == (heading + a) + [Extent(rows[i][c], f.ws[c])] + b;
    hide Held, Extents, Sum, TotalWidth, RowFits, FrozenLen, Heading, StrideOf;
    PackedIsHeld(heading + a, Extent(rows[i][c], f.ws[c]), b, FrozenLen(f, |rows|), back);
  }

  lemma CountHeld(f: Format, rows: seq<seq<nat>>, back: Bytes, at: nat)
    requires Freezable(f, rows) && Even(f, rows) && at == 0
    ensures Held(Freeze(f, rows) + back, at, f.count, |rows|)
  {
    ExtentsNarrow(f, rows);
    FrozenSize(f, rows);
    var count, rest := Extent(|rows|, f.count), [Extent(DataStart(f), f.distance)] + AllCells(f, rows);
    assert Extents(f, rows) == [] + [count] + rest;
    hide Held, Extents, RowFits, Sum, RowBit, FrozenLen, DataStart;
    PackedIsHeld([], count, rest, FrozenLen(f, |rows|), back);
  }

  lemma DistanceHeld(f: Format, rows: seq<seq<nat>>, back: Bytes)
    requires Freezable(f, rows) && Even(f, rows)
    ensures Held(Freeze(f, rows) + back, f.count, f.distance, DataStart(f))
  {
    ExtentsNarrow(f, rows);
    FrozenSize(f, rows);
    HeadingWidth(f, |rows|);
    var count, distance, cells := Extent(|rows|, f.count), Extent(DataStart(f), f.distance), AllCells(f, rows);
    assert Extents(f, rows) == [count] + [distance] + cells;
    hide Held, Extents, RowFits, Sum, RowBit, FrozenLen, DataStart, Heading;
    PackedIsHeld([count], distance, cells, FrozenLen(f, |rows|), back);
  }

  lemma SchemaKnows(f: Format, plain: bool, c: nat)
    requires Placeable(f) && c < |f.ws|
    ensures LayoutOf(SchemaFor(f, plain), 5 + c) == Ok(Integral(f.ws[c]))
  {
  }

  // Element i of the list starts where row i was packed.
  lemma ElementIsRow(f: Format, plain: bool, i: nat)
    requires Placeable(f)
    ensures BitOf(ElementAt(ItemLayout(f, plain), DataStart(f), i)) == RowBit(f, i)
  {
    ElementAtStride(ItemLayout(f, plain), DataStart(f), i);
    assert Stride(ItemLayout(f, plain)) == StrideOf(f);
    hide StrideOf, Stride;
  }

  lemma CellStored(f: Format, rows: seq<seq<nat>>, back: Bytes, i: nat, c: nat)
    requires Freezable(f, rows) && Even(f, rows) && i < |rows| && c < |f.ws|
    ensures Stores(SchemaFor(f, false), Freeze(f, rows) + back, ElementAt(ItemLayout(f, false), DataStart(f), i),
                   ItemLayout(f, false), c + 1, rows[i][c])
    ensures RowFits(f, rows[i])
  {
    hide *;
    FreezablePlaceable(f, rows);
    FittingRow(f, rows, i);
    CellHeld(f, rows, back, i, c);
    FittingCell(f, rows[i], c);
    SchemaKnows(f, false, c);
    ElementIsRow(f, false, i);
    FieldOfCell(f, c);
    FieldStored(SchemaFor(f, false), Freeze(f, rows) + back, ElementAt(ItemLayout(f, false), DataStart(f), i),
                ItemLayout(f, false), c + 1, f.ws[c], rows[i][c]);
  }

  // A field of a plain width holds what is held at its place; one left out holds nothing.
  lemma FieldStored(schema: Schema, blob: Bytes, p: Pos, l: Layout, id: i16, w: nat, v: nat)
    requires w <= 64 && (id !in l.fields ==> v == 0)
    requires id in l.fields ==> LayoutOf(schema, l.fields[id].layoutId) == Ok(Integral(w))
    requires id in l.fields ==> Held(blob, BitOf(p) + OffsetBits(l.fields[id]), w, v)
    ensures Stores(schema, blob, p, l, id, v)
  {
    hide Held;
  }

  lemma FittingRow(f: Format, rows: seq<seq<nat>>, i: nat)
    requires Freezable(f, rows) && i < |rows|
    ensures RowFits(f, rows[i]) && |rows[i]| == |f.ws|
  {
  }

  lemma FittingCell(f: Format, row: seq<nat>, c: nat)
    requires RowFits(f, row) && c < |f.ws|
    ensures |row| == |f.ws| && (f.ws[c] == 0 ==> row[c] == 0)
  {
    assert Pow(2, 0) == 1;
  }

  lemma FieldOfCell(f: Format, c: nat)
    requires Placeable(f) && c < |f.ws|
    ensures var fields := ItemLayout(f, false).fields;
            if f.ws[c] == 0 then c + 1 !in fields
            else c + 1 in fields && fields[c + 1].layoutId == 5 + c && OffsetBits(fields[c + 1]) == Sum(f.ws[..c])
  {
    if f.ws[c] > 0 {
      assert ItemFields(f)[c + 1] == FieldAt(f, c);
      SumUpTo(f.ws, c);
    }
  }

  lemma FrozenLayouts(f: Format, plain: bool, schema: Schema)
    requires Placeable(f) && schema == SchemaFor(f, plain)
    ensures LayoutOf(schema, 1) == Ok(ListOf(f)) && LayoutOf(schema, 2) == Ok(Integral(f.count))
    ensures LayoutOf(schema, 3) == Ok(ItemLayout(f, plain)) && LayoutOf(schema, 4) == Ok(Integral(f.distance))
    ensures KnownFields(schema, ItemLayout(f, plain))
  {
    hide ListOf, RootOf;
    if !plain {
      forall id | id in ItemFields(f) ensures ItemFields(f)[id].layoutId in schema.layouts {
        SchemaKnows(f, plain, id - 1);
      }
    }
  }

  // What the writer's schema says of the list itself.
  predicate Describes(schema: Schema, f: Format, l: Layout)
    requires Placeable(f)
  {
    && IsList(f, l) && l.fields.Keys == {1, 2, 3} && 3 in schema.layouts
    && LayoutOf(schema, 2) == Ok(Integral(f.count)) && LayoutOf(schema, 4) == Ok(Integral(f.distance))
  }

  lemma ListLayoutIs(schema: Schema, f: Format, l: Layout)
    requires Placeable(f) && Describes(schema, f, l)
    ensures ListLayout(schema, l) && (OneBitDistance(schema, l) <==> f.distance == 1)
  {
  }

  lemma HeadingFields(schema: Schema, f: Format, l: Layout)
    requires Placeable(f) && Describes(schema, f, l)
    ensures 2 in l.fields && LayoutOf(schema, l.fields[2].layoutId) == Ok(Integral(f.count))
    ensures OffsetBits(l.fields[2]) == 0
    ensures 1 in l.fields && LayoutOf(schema, l.fields[1].layoutId) == Ok(Integral(f.distance))
    ensures OffsetBits(l.fields[1]) == f.count
  {
    hide DataStart;
  }

  lemma StartOf(p: Pos)
    requires p.byte == 0 && p.bit == 0
    ensures BitOf(p) == 0
  {
  }

  lemma FreezablePlaceable(f: Format, rows: seq<seq<nat>>)
    requires Freezable(f, rows)
    ensures Placeable(f) && f.count <= 64 && f.distance <= 64 && |f.ws| == |f.wide| <= 64
  {
  }

  lemma CountStored(schema: Schema, f: Format, l: Layout, p: Pos, rows: seq<seq<nat>>, back: Bytes)
    requires Freezable(f, rows) && Even(f, rows) && Describes(schema, f, l) && p.byte == 0 && p.bit == 0
    ensures Stores(schema, Freeze(f, rows) + back, p, l, 2, |rows|)
  {
    hide *;
    FreezablePlaceable(f, rows);
    HeadingFields(schema, f, l);
    StartOf(p);
    CountHeld(f, rows, back, BitOf(p) + OffsetBits(l.fields[2]));
    FieldStored(schema, Freeze(f, rows) + back, p, l, 2, f.count, |rows|);
  }

  lemma DistanceStored(schema: Schema, f: Format, l: Layout, p: Pos, rows: seq<seq<nat>>, back: Bytes)
    requires Freezable(f, rows) && Even(f, rows) && Describes(schema, f, l) && p.byte == 0 && p.bit == 0
    ensures Stores(schema, Freeze(f, rows) + back, p, l, 1, DataStart(f))
  {
    hide *;
    FreezablePlaceable(f, rows);
    HeadingFields(schema, f, l);
    StartOf(p);
    DistanceHeld(f, rows, back);
    FieldStored(schema, Freeze(f, rows) + back, p, l, 1, f.distance, DataStart(f));
  }

  // What the two numbers in front make the list's layout say.
  lemma RangeIsStored(schema: Schema, f: Format, l: Layout, p: Pos, rows: seq<seq<nat>>, back: Bytes)
    requires Freezable(f, rows) && Even(f, rows) && Describes(schema, f, l) && p.byte == 0 && p.bit == 0
    ensures RangeStored(schema, Freeze(f, rows) + back, p, l, DataStart(f), |rows|)
  {
    hide Stores, Freeze, Describes, Freezable, DataStart;
    CountStored(schema, f, l, p, rows, back);
    DistanceStored(schema, f, l, p, rows, back);
  }

  lemma DataIsIn(f: Format, plain: bool, rows: seq<seq<nat>>, back: Bytes)
    requires Freezable(f, rows) && Even(f, rows)
    ensures DataFits(Freeze(f, rows) + back, ItemLayout(f, plain), DataStart(f), |rows|)
    ensures DataStart(f) <= |Freeze(f, rows) + back|
  {
    FrozenSize(f, rows);
    assert Stride(ItemLayout(f, plain)) == StrideOf(f);
    hide Freeze, ItemFields, StrideOf, Stride, RowFits;
  }

  lemma RowIsStored(f: Format, rows: seq<seq<nat>>, back: Bytes, i: nat)
    requires Freezable(f, rows) && Even(f, rows) && i < |rows|
    ensures RowStored(SchemaFor(f, false), Freeze(f, rows) + back, ElementAt(ItemLayout(f, false), DataStart(f), i),
                      ItemLayout(f, false), WantsFor(f), rows[i])
  {
    hide Stores, SchemaFor, Freeze, ItemLayout, ElementAt, DataStart, RowFits;
    forall c | 0 <= c < |f.ws|
      ensures Stores(SchemaFor(f, false), Freeze(f, rows) + back, ElementAt(ItemLayout(f, false), DataStart(f), i),
                     ItemLayout(f, false), WantsFor(f)[c].id, rows[i][c])
    {
      CellStored(f, rows, back, i, c);
    }
  }

  // The list as the writer's schema describes it, ready to be found by the decoder.
  lemma ListIsThere(schema: Schema, f: Format, plain: bool, blob: Bytes)
    requires Placeable(f) && schema == SchemaFor(f, plain)
    ensures var l, p := ListOf(f), Child(ROOT, RootOf().fields[1]);
            && Describes(schema, f, l) && ListAt(schema, blob, RootOf(), 1, Bare, l, p) && p.byte == 0 && p.bit == 0
            && LayoutOf(schema, l.fields[3].layoutId) == Ok(ItemLayout(f, plain))
            && KnownFields(schema, ItemLayout(f, plain))
  {
    hide ListOf, ItemLayout, SchemaFor, KnownFields, Placeable;
    FrozenLayouts(f, plain, schema);
  }

  lemma StoredFrom(schema: Schema, f: Format, l: Layout, p: Pos, item: Layout, wants: seq<Want>, blob: Bytes,
                   rows: seq<seq<nat>>, data: nat)
    requires Placeable(f) && Describes(schema, f, l) && ListLayout(schema, l)
    requires LayoutOf(schema, l.fields[3].layoutId) == Ok(item)
    requires RangeStored(schema, blob, p, l, data, |rows|) && p.byte <= |blob|
    requires KnownFields(schema, item) && DataFits(blob, item, data, |rows|)
    requires forall i :: 0 <= i < |rows| ==> RowStored(schema, blob, ElementAt(item, data, i), item, wants, rows[i])
    ensures RowsStored(schema, blob, l, p, wants, rows, data)
  {
    hide ListLayout, RangeStored, KnownFields, DataFits, RowStored, ElementAt;
  }

  lemma FreezeIsStored(schema: Schema, f: Format, l: Layout, p: Pos, rows: seq<seq<nat>>, back: Bytes)
    requires Freezable(f, rows) && Even(f, rows) && schema == SchemaFor(f, false)
    requires Placeable(f) && Describes(schema, f, l) && p.byte == 0 && p.bit == 0
    requires LayoutOf(schema, l.fields[3].layoutId) == Ok(ItemLayout(f, false))
    requires KnownFields(schema, ItemLayout(f, false))
    ensures RowsStored(schema, Freeze(f, rows) + back, l, p, WantsFor(f), rows, DataStart(f))
  {
    hide *;
    FreezablePlaceable(f, rows);
    var blob, item, wants, data := Freeze(f, rows) + back, ItemLayout(f, false), WantsFor(f), DataStart(f);
    RangeIsStored(schema, f, l, p, rows, back);
    ListLayoutIs(schema, f, l);
    DataIsIn(f, false, rows, back);
    forall i | 0 <= i < |rows| ensures RowStored(schema, blob, ElementAt(item, data, i), item, wants, rows[i]) {
      RowIsStored(f, rows, back, i);
    }
    StoredFrom(schema, f, l, p, item, wants, blob, rows, data);
  }

  // Rows of any widths, some of them none, packed bit by bit or byte-aligned, come back from what this writer freezes,
  // whatever follows it, exactly when their distance was not written in one bit and none is asked for too narrowly.
  lemma FrozenRowsDecodedIff(f: Format, rows: seq<seq<nat>>, back: Bytes)
    requires Freezable(f, rows) && rows != []
    ensures Even(f, rows)
    ensures Addressable(Freeze(f, rows) + back) ==>
              (Rows(SchemaFor(f, false), Freeze(f, rows) + back, RootOf(), 1, WantsFor(f)) == Ok(rows) <==>
                 f.distance != 1 && AllFit32(WantsFor(f), rows))
  {
    ExtentsNarrow(f, rows);
    var schema, blob, l, p := SchemaFor(f, false), Freeze(f, rows) + back, ListOf(f), Child(ROOT, RootOf().fields[1]);
    if Addressable(blob) {
      hide SchemaFor, Freeze, ListOf, RootOf, RowsStored, OneBitDistance, KnownFields, Rows, ItemLayout, Describes,
        RowFits, Placeable, ListAt, DataStart;
      ListIsThere(schema, f, false, blob);
      ListLayoutIs(schema, f, l);
      FreezeIsStored(schema, f, l, p, rows, back);
      RowsDecodedIff(schema, blob, RootOf(), 1, Bare, l, p, WantsFor(f), rows, DataStart(f));
    }
  }

  // --- Integers ------------------------------------------------------------------------------------------------

  // Integers as rows of one column.
  function Single(vs: seq<nat>): seq<seq<nat>> {
    seq(|vs|, i requires 0 <= i < |vs| => [vs[i]])
  }

  lemma IntHeld(f: Format, vs: seq<nat>, back: Bytes, i: nat)
    requires |f.ws| == 1 && Freezable(f, Single(vs)) && Even(f, Single(vs)) && i < |vs|
    ensures Held(Freeze(f, Single(vs)) + back, BitOf(ElementAt(ItemLayout(f, true), DataStart(f), i)),
                 ItemLayout(f, true).bits, vs[i])
  {
    CellHeld(f, Single(vs), back, i, 0);
    ElementIsRow(f, true, i);
    assert f.ws[..0] == [] && Sum(f.ws[..0]) == 0;
    assert f.ws == [f.ws[0]] && Sum(f.ws[..0]) + f.ws[0] == Sum(f.ws);
    hide Held, Freeze, ElementAt, RowBit, DataStart, RowFits;
  }

  lemma IntsStoredFrom(schema: Schema, f: Format, l: Layout, p: Pos, item: Layout, blob: Bytes, vs: seq<nat>, data: nat)
    requires Placeable(f) && Describes(schema, f, l) && ListLayout(schema, l)
    requires LayoutOf(schema, l.fields[3].layoutId) == Ok(item) && item.fields == map[]
    requires RangeStored(schema, blob, p, l, data, |vs|) && p.byte <= |blob| && data <= |blob|
    requires DataFits(blob, item, data, |vs|)
    requires forall i :: 0 <= i < |vs| ==> Held(blob, BitOf(ElementAt(item, data, i)), item.bits, vs[i])
    ensures IntsStored(schema, blob, l, p, vs, data)
  {
    hide ListLayout, RangeStored, DataFits, Held, ElementAt;
  }

  lemma PlainItem(f: Format, vs: seq<nat>)
    requires Placeable(f)
    ensures ItemLayout(f, true).fields == map[] && |Single(vs)| == |vs|
  {
  }

  lemma FreezeIsIntsStored(schema: Schema, f: Format, l: Layout, p: Pos, vs: seq<nat>, back: Bytes)
    requires |f.ws| == 1 && Freezable(f, Single(vs)) && Even(f, Single(vs))
    requires Placeable(f) && Describes(schema, f, l) && p.byte == 0 && p.bit == 0
    requires LayoutOf(schema, l.fields[3].layoutId) == Ok(ItemLayout(f, true))
    ensures IntsStored(schema, Freeze(f, Single(vs)) + back, l, p, vs, DataStart(f))
  {
    hide *;
    var blob, item, data := Freeze(f, Single(vs)) + back, ItemLayout(f, true), DataStart(f);
    PlainItem(f, vs);
    RangeIsStored(schema, f, l, p, Single(vs), back);
    ListLayoutIs(schema, f, l);
    DataIsIn(f, true, Single(vs), back);
    forall i | 0 <= i < |vs| ensures Held(blob, BitOf(ElementAt(item, data, i)), item.bits, vs[i]) {
      IntHeld(f, vs, back, i);
    }
    IntsStoredFrom(schema, f, l, p, item, blob, vs, data);
  }

  // And so do integers of any one width.
  lemma FrozenIntsDecodedIff(f: Format, vs: seq<nat>, back: Bytes)
    requires |f.ws| == 1 && Freezable(f, Single(vs)) && vs != []
    ensures Even(f, Single(vs))
    ensures Addressable(Freeze(f, Single(vs)) + back) ==>
              (Ints(SchemaFor(f, true), Freeze(f, Single(vs)) + back, RootOf(), 1) == Ok(vs) <==> f.distance != 1)
  {
    ExtentsNarrow(f, Single(vs));
    var schema, blob, l, p :=
      SchemaFor(f, true), Freeze(f, Single(vs)) + back, ListOf(f), Child(ROOT, RootOf().fields[1]);
    if Addressable(blob) {
      hide SchemaFor, Freeze, ListOf, RootOf, IntsStored, OneBitDistance, KnownFields, Ints, ItemLayout, Describes,
        RowFits, Placeable, ListAt, DataStart;
      ListIsThere(schema, f, true, blob);
      ListLayoutIs(schema, f, l);
      FreezeIsIntsStored(schema, f, l, p, vs, back);
      IntsDecodedIff(schema, blob, RootOf(), 1, Bare, l, p, vs, DataStart(f));
    }
  }

  // --- A list the decoder loses --------------------------------------------------------------------------------

  // A byte in front: seven bits of count and one of distance.
  function TightFormat(): (f: Format)
    ensures f.distance == 1 && |f.ws| == 1
  {
    Format(7, 1, 0, [8], [false])
  }

  lemma TightIsPlaceable()
    ensures Placeable(TightFormat()) && Pow(2, 7) == 128 && Pow(2, 8) == 256 && Sum(TightFormat().ws) == 8
  {
    assert Pow(2, 2) == 4;
    PowAdd(2, 2, 2);
    PowAdd(2, 4, 2);
    assert Pow(2, 7) == 2 * Pow(2, 6);
    assert TightFormat().ws[..0] == [];
  }

  lemma TightBytes()
    ensures Even(TightFormat(), [[5]]) && Freeze(TightFormat(), [[5]]) == [0x81, 5, 0]
  {
    var f := TightFormat();
    TightIsPlaceable();
    var es := Extents(f, [[5]]);
    assert es == [Extent(1, 7), Extent(1, 1), Extent(5, 8), Extent(0, 0)];
    TightNumber(es);
    assert FrozenLen(f, 1) == 3;
    ThreeBytes();
  }

  lemma TightNumber(es: seq<Extent>)
    requires es == [Extent(1, 7), Extent(1, 1), Extent(5, 8), Extent(0, 0)]
    ensures Packed(es) == 0x581
  {
    TightIsPlaceable();
    assert Pow(2, 1) == 2;
    var value, bit := es[1..][1..], es[1..];
    assert value == [Extent(5, 8), Extent(0, 0)] && value[1..] == [Extent(0, 0)] && value[1..][1..] == [];
    assert Packed(value[1..]) == 0;
    assert Packed(value) == 5;
    assert Packed(bit) == 1 + 2 * 5;
  }

  lemma ThreeBytes()
    ensures LeBytes(0x581, 3) == [0x81, 5, 0]
  {
    assert LeBytes(0x5, 2) == [5] + LeBytes(0, 1) && LeBytes(0, 1) == [0] + LeBytes(0, 0);
  }

  lemma TightFits()
    ensures Freezable(TightFormat(), [[5]]) && Single([5]) == [[5]] && DataStart(TightFormat()) == 1
    ensures Child(ROOT, RootOf().fields[1]) == ROOT
  {
    TightIsPlaceable();
  }

  lemma TightBlob(f: Format)
    requires Even(f, [[5]]) && Freeze(f, [[5]]) == [0x81, 5, 0]
    ensures Freeze(f, [[5]]) + [] == [0x81, 5, 0] && Addressable([0x81, 5, 0])
  {
  }

  // One row of one byte, distance and count in the byte before it, stored as the format asks: the decoder gives back
  // neither the row nor, frozen as an integer, the number.
  lemma OneBitListsAreLost()
    ensures Placeable(TightFormat())
    ensures RowsStored(SchemaFor(TightFormat(), false), [0x81, 5, 0], ListOf(TightFormat()), ROOT,
                       WantsFor(TightFormat()), [[5]], 1)
    ensures IntsStored(SchemaFor(TightFormat(), true), [0x81, 5, 0], ListOf(TightFormat()), ROOT, [5], 1)
    ensures Rows(SchemaFor(TightFormat(), false), [0x81, 5, 0], RootOf(), 1, WantsFor(TightFormat())) != Ok([[5]])
    ensures Ints(SchemaFor(TightFormat(), true), [0x81, 5, 0], RootOf(), 1) != Ok([5])
  {
    hide *;
    var f := TightFormat();
    TightIsPlaceable();
    TightBytes();
    TightFits();
    TightBlob(f);
    FrozenRowsDecodedIff(f, [[5]], []);
    FrozenIntsDecodedIff(f, [5], []);
    ListIsThere(SchemaFor(f, false), f, false, [0x81, 5, 0]);
    FreezeIsStored(SchemaFor(f, false), f, ListOf(f), ROOT, [[5]], []);
    ListIsThere(SchemaFor(f, true), f, true, [0x81, 5, 0]);
    FreezeIsIntsStored(SchemaFor(f, true), f, ListOf(f), ROOT, [5], []);
  }
}
