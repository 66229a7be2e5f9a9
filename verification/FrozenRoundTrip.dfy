/** Decoding gives back every list that was frozen, under whatever layout the writer chose. */
module FrozenRoundTrip {
  import opened Common
  import opened BitBuf
  import opened Layouts
  import opened Frozen
  import opened StringTables
  import opened FrozenLists

  // --- How a writer may store a list ---------------------------------------------------------------------------

  // A root list is stored in place, or as the value of an optional that is set.
  datatype Wrapping = Bare | Wrapped(outer: Layout)

  predicate SetOptional(schema: Schema, blob: Bytes, at: Pos, outer: Layout, l: Layout, p: Pos) {
    && OneBitDistance(schema, outer)
    && Stores(schema, blob, at, outer, 1, 1)
    && 2 in outer.fields && LayoutOf(schema, outer.fields[2].layoutId) == Ok(l) && p == Child(at, outer.fields[2])
  }

  predicate ListAt(schema: Schema, blob: Bytes, root: Layout, id: i16, w: Wrapping, l: Layout, p: Pos) {
    && id in root.fields
    && var at := Child(ROOT, root.fields[id]);
    match w
    case Bare => LayoutOf(schema, root.fields[id].layoutId) == Ok(l) && p == at
    case Wrapped(outer) =>
      LayoutOf(schema, root.fields[id].layoutId) == Ok(outer) && SetOptional(schema, blob, at, outer, l, p)
  }

  // A list's own layout: known sub-layouts, and a count that is a plain integer.
  predicate ListLayout(schema: Schema, l: Layout) {
    && KnownFields(schema, l)
    && (2 in l.fields ==> schema.layouts[l.fields[2].layoutId].fields == map[])
  }

  // The elements lie in the blob, from byte `data` on.
  predicate DataFits(blob: Bytes, item: Layout, data: nat, count: nat) {
    8 * data + count * Stride(item) <= 8 * |blob|
  }

  predicate RowStored(schema: Schema, blob: Bytes, p: Pos, item: Layout, wants: seq<Want>, row: seq<nat>) {
    && |row| == |wants|
    && forall c :: 0 <= c < |wants| ==> Stores(schema, blob, p, item, wants[c].id, row[c])
  }

  // What is asked for at 32 bits fits them.
  predicate RowFits32(wants: seq<Want>, row: seq<nat>) {
    |row| == |wants| && forall c :: 0 <= c < |wants| && !wants[c].wide ==> row[c] <= U32_MAX
  }

  predicate AllFit32(wants: seq<Want>, rows: seq<seq<nat>>) {
    forall i :: 0 <= i < |rows| ==> RowFits32(wants, rows[i])
  }

  predicate RowsStored(schema: Schema, blob: Bytes, l: Layout, p: Pos, wants: seq<Want>, rows: seq<seq<nat>>,
                       data: nat)
  {
    && ListLayout(schema, l) && RangeStored(schema, blob, p, l, data, |rows|) && p.byte <= |blob|
    && 3 in l.fields
    && var item := schema.layouts[l.fields[3].layoutId];
    && KnownFields(schema, item) && DataFits(blob, item, data, |rows|)
    && forall i :: 0 <= i < |rows| ==> RowStored(schema, blob, ElementAt(item, data, i), item, wants, rows[i])
  }

  // --- Finding the list ----------------------------------------------------------------------------------------

  lemma SetOptionalReads(schema: Schema, blob: Bytes, at: Pos, outer: Layout, l: Layout, p: Pos)
    requires Addressable(blob) && SetOptional(schema, blob, at, outer, l, p)
    ensures ReadOptional(blob, at, outer) == Ok(OptionalView(true, p, Some(outer.fields[2].layoutId)))
    ensures KindOf(schema, outer) == Ok(OptionalKind(Some(outer.fields[2].layoutId)))
  {
    hide Held, ReadIntegral;
    ReadsField(blob, at, outer.fields[1], 1, 1);
  }

  lemma WrappedResolves(schema: Schema, blob: Bytes, root: Layout, id: i16, outer: Layout, l: Layout, p: Pos)
    requires Addressable(blob) && ListAt(schema, blob, root, id, Wrapped(outer), l, p)
    ensures ResolveList(schema, blob, root, id) == Ok(Some((l, p)))
  {
    SetOptionalReads(schema, blob, Child(ROOT, root.fields[id]), outer, l, p);
    hide Child, KindOf, ReadOptional, Stores, OneBitDistance;
  }

  lemma BareResolves(schema: Schema, blob: Bytes, root: Layout, id: i16, l: Layout, p: Pos)
    requires ListAt(schema, blob, root, id, Bare, l, p) && KnownFields(schema, l) && !OneBitDistance(schema, l)
    ensures ResolveList(schema, blob, root, id) == Ok(Some((l, p)))
  {
  }

  // A list in place with a one-bit distance is taken for an optional, set when the distance is not zero: what is found
  // is nothing, or the list's own count, a plain integer.
  lemma BareMisread(schema: Schema, blob: Bytes, root: Layout, id: i16, l: Layout, p: Pos)
    requires ListAt(schema, blob, root, id, Bare, l, p) && ListLayout(schema, l) && OneBitDistance(schema, l)
    ensures var r := ResolveList(schema, blob, root, id);
            r.Ok? && r.value.Some? ==>
              && 2 in l.fields && ReadIntegral(blob, Child(p, l.fields[1]), 1).Ok?
              && ReadIntegral(blob, Child(p, l.fields[1]), 1).value != 0
              && r.value.value == (schema.layouts[l.fields[2].layoutId], Child(p, l.fields[2]))
              && r.value.value.0.fields == map[]
  {
    hide ReadIntegral;
  }

  // Only a layout with fields and no one-bit distance is opened as a list, within the cap: one of rows with the item
  // layout it names, one of integers with an item layout that is an integer or with none.
  lemma OpensOnlyLists(schema: Schema, blob: Bytes, l: Layout, p: Pos)
    ensures var r := OpenArray(schema, blob, l, p);
            r.Ok? ==>
              && 3 in l.fields && !OneBitDistance(schema, l) && r.value.0.count <= 0x400_0000
              && LayoutOf(schema, l.fields[3].layoutId) == Ok(r.value.1)
    ensures var r := OpenInts(schema, blob, l, p);
            r.Ok? ==>
              && l.fields != map[] && !OneBitDistance(schema, l) && r.value.0.count <= 0x400_0000
              && if 3 in l.fields then
                   && l.fields[3].layoutId in schema.layouts
                   && schema.layouts[l.fields[3].layoutId].fields == map[]
                   && r.value.1 == schema.layouts[l.fields[3].layoutId].bits
                 else r.value.1 == 0
  {
    hide ReadIntegral;
  }

  // A stored list is found where it is, or, when its distance is one bit wide, nothing that opens as a list is.
  lemma ResolvesUnlessOneBit(schema: Schema, blob: Bytes, root: Layout, id: i16, w: Wrapping, l: Layout, p: Pos)
    requires Addressable(blob) && ListAt(schema, blob, root, id, w, l, p) && ListLayout(schema, l)
    ensures var found := ResolveList(schema, blob, root, id);
            if !OneBitDistance(schema, l) then found == Ok(Some((l, p)))
            else found.Ok? && found.value.Some? ==>
              && OpenArray(schema, blob, found.value.value.0, found.value.value.1).Err?
              && OpenInts(schema, blob, found.value.value.0, found.value.value.1).Err?
  {
    if w.Wrapped? {
      WrappedResolves(schema, blob, root, id, w.outer, l, p);
    } else if OneBitDistance(schema, l) {
      BareMisread(schema, blob, root, id, l, p);
    } else {
      BareResolves(schema, blob, root, id, l, p);
    }
    OpensOnlyLists(schema, blob, l, p);
    var found := ResolveList(schema, blob, root, id);
    hide OpenArray, OpenInts, ResolveList, ListAt, OneBitDistance;
    if found.Ok? && found.value.Some? {
      OpensOnlyLists(schema, blob, found.value.value.0, found.value.value.1);
    }
  }

  // --- Reading it ----------------------------------------------------------------------------------------------

  lemma OpensArray(schema: Schema, blob: Bytes, l: Layout, p: Pos, data: nat, count: nat)
    requires Addressable(blob) && KnownFields(schema, l) && !OneBitDistance(schema, l) && 3 in l.fields
    requires RangeStored(schema, blob, p, l, data, count) && p.byte <= |blob| && data <= |blob|
    ensures OpenArray(schema, blob, l, p)
            == if count > LIST_CAP then Err(CapExceeded(count))
               else Ok((RangeView(if count == 0 then p.byte else data, count, Some(l.fields[3].layoutId)),
                        schema.layouts[l.fields[3].layoutId]))
  {
    hide RangeStored, ReadRange;
    ReadsRange(schema, blob, p, l, data, count);
    ArrayRecognisedIff(schema, l);
  }

  lemma ColumnsResolve(schema: Schema, item: Layout, wants: seq<Want>) returns (cols: seq<Column>)
    requires KnownFields(schema, item)
    ensures Columns(schema, item, wants) == Ok(cols) && |cols| == |wants|
    ensures forall c :: 0 <= c < |wants| ==> ResolveColumn(schema, item, wants[c].id) == Ok(cols[c])
  {
    cols := seq(|wants|, c requires 0 <= c < |wants| => ResolveColumn(schema, item, wants[c].id).value);
    var rs := seq(|wants|, c requires 0 <= c < |wants| => ResolveColumn(schema, item, wants[c].id));
    SequenceOk(rs, cols);
  }

  lemma CellReads(schema: Schema, blob: Bytes, p: Pos, item: Layout, want: Want, col: Column, v: nat)
    requires Addressable(blob) && Stores(schema, blob, p, item, want.id, v)
    requires ResolveColumn(schema, item, want.id) == Ok(col)
    ensures ReadCell(blob, p, col, want.wide) == if want.wide || v <= U32_MAX then Ok(v) else Err(ValueTooWide)
  {
    hide Held, ReadIntegral;
    if want.id in item.fields {
      ReadsField(blob, p, item.fields[want.id], col.bits, v);
    }
  }

  lemma RowReads(schema: Schema, blob: Bytes, p: Pos, item: Layout, wants: seq<Want>, cols: seq<Column>, row: seq<nat>)
    requires Addressable(blob) && RowStored(schema, blob, p, item, wants, row) && |cols| == |wants|
    requires forall c :: 0 <= c < |wants| ==> ResolveColumn(schema, item, wants[c].id) == Ok(cols[c])
    ensures ReadCells(blob, p, cols, wants) == if RowFits32(wants, row) then Ok(row) else Err(ValueTooWide)
  {
    hide Stores, ReadCell, ResolveColumn, Sequence;
    var rs := seq(|wants|, c requires 0 <= c < |cols| && c < |wants| => ReadCell(blob, p, cols[c], wants[c].wide));
    forall c | 0 <= c < |wants|
      ensures rs[c] == if wants[c].wide || row[c] <= U32_MAX then Ok(row[c]) else Err(ValueTooWide)
    {
      CellReads(schema, blob, p, item, wants[c], cols[c], row[c]);
    }
    SequenceOr(rs, row, ValueTooWide);
    assert RowFits32(wants, row) ==> forall c :: 0 <= c < |rs| ==> rs[c].Ok?;
    assert !RowFits32(wants, row) ==> exists c :: 0 <= c < |rs| && rs[c] == Err(ValueTooWide);
  }

  lemma ElementReads(schema: Schema, blob: Bytes, data: nat, count: nat, item: i16, i: nat)
    requires Addressable(blob) && item in schema.layouts && i < count
            && DataFits(blob, schema.layouts[item], data, count)
    ensures ElementPos(schema, RangeView(data, count, Some(item)), i) == Ok(ElementAt(schema.layouts[item], data, i))
    ensures ElementAt(schema.layouts[item], data, i).byte <= |blob|
  {
    var l := schema.layouts[item];
    StridesFit(i, count, Stride(l));
    ReadsElement(schema, data, count, item, i);
    ElementAtStride(l, data, i);
  }

  lemma StridesFit(i: nat, count: nat, stride: nat)
    requires i < count
    ensures (i + 1) * stride <= count * stride && 0 <= i * stride <= (i + 1) * stride
  {
  }

  lemma RowsRead(schema: Schema, blob: Bytes, l: Layout, p: Pos, wants: seq<Want>, rows: seq<seq<nat>>, data: nat)
    requires Addressable(blob) && RowsStored(schema, blob, l, p, wants, rows, data) && |rows| <= LIST_CAP
    requires !OneBitDistance(schema, l)
    ensures RowsAt(schema, blob, l, p, wants) == if AllFit32(wants, rows) then Ok(rows) else Err(ValueTooWide)
  {
    hide ReadCells, Stores, Sequence;
    var id := l.fields[3].layoutId;
    var item := schema.layouts[id];
    var range := RangeView(if rows == [] then p.byte else data, |rows|, Some(id));
    OpensArray(schema, blob, l, p, data, |rows|);
    var cols := ColumnsResolve(schema, item, wants);
    hide OpenArray, Columns, ResolveColumn, RangeStored, Stride, ElementAt, ElementPos, OneBitDistance, KnownFields;
    var rs := ReadRows(schema, blob, range, cols, wants);
    forall i | 0 <= i < |rows|
      ensures rs[i] == if RowFits32(wants, rows[i]) then Ok(rows[i]) else Err(ValueTooWide)
    {
      ElementReads(schema, blob, data, |rows|, id, i);
      RowReads(schema, blob, ElementAt(item, data, i), item, wants, cols, rows[i]);
    }
    hide RowFits32, ReadRow;
    SequenceOr(rs, rows, ValueTooWide);
    assert AllFit32(wants, rows) ==> forall i :: 0 <= i < |rs| ==> rs[i].Ok?;
    assert !AllFit32(wants, rows) ==> exists i :: 0 <= i < |rs| && rs[i] == Err(ValueTooWide);
  }

  // Beyond the cap on list lengths nothing is read.
  lemma TooManyOpens(schema: Schema, blob: Bytes, l: Layout, p: Pos, data: nat, count: nat)
    requires Addressable(blob) && ListLayout(schema, l) && !OneBitDistance(schema, l) && 3 in l.fields
    requires RangeStored(schema, blob, p, l, data, count) && p.byte <= |blob| && data <= |blob| && count > LIST_CAP
    ensures OpenArray(schema, blob, l, p) == Err(CapExceeded(count))
  {
    hide RangeStored;
    OpensArray(schema, blob, l, p, data, count);
  }

  lemma RowsExact(schema: Schema, blob: Bytes, l: Layout, p: Pos, wants: seq<Want>, rows: seq<seq<nat>>, data: nat)
    requires Addressable(blob) && RowsStored(schema, blob, l, p, wants, rows, data) && !OneBitDistance(schema, l)
    ensures RowsAt(schema, blob, l, p, wants) ==
            if |rows| > 0x400_0000 then Err(CapExceeded(|rows|))
            else if AllFit32(wants, rows) then Ok(rows) else Err(ValueTooWide)
  {
    assert LIST_CAP == 0x400_0000;
    hide *;
    if |rows| <= LIST_CAP {
      RowsRead(schema, blob, l, p, wants, rows, data);
    } else {
      RowsTooMany(schema, blob, l, p, wants, rows, data);
    }
  }

  lemma RowsTooMany(schema: Schema, blob: Bytes, l: Layout, p: Pos, wants: seq<Want>, rows: seq<seq<nat>>, data: nat)
    requires Addressable(blob) && RowsStored(schema, blob, l, p, wants, rows, data) && |rows| > LIST_CAP
    requires !OneBitDistance(schema, l)
    ensures RowsAt(schema, blob, l, p, wants) == Err(CapExceeded(|rows|))
  {
    hide RowStored, RowsAt, OpenArray, RangeStored, OneBitDistance, Addressable, KnownFields;
    TooManyOpens(schema, blob, l, p, data, |rows|);
    NotOpened(schema, blob, l, p, CapExceeded(|rows|));
  }

  lemma NotOpened(schema: Schema, blob: Bytes, l: Layout, p: Pos, e: FrozenError)
    requires OpenArray(schema, blob, l, p) == Err(e)
    ensures forall wants :: RowsAt(schema, blob, l, p, wants) == Err(e)
    ensures StringsAt(schema, blob, l, p) == Err(e)
  {
    hide OpenArray;
  }

  // A frozen list of structs that is not empty is decoded to itself, under every layout, exactly when its distance
  // is not one bit wide, it is no longer than the cap, and what is asked for at 32 bits fits them; otherwise it is
  // refused, or, with a one-bit distance, may come back empty.
  lemma RowsDecodedIff(schema: Schema, blob: Bytes, root: Layout, id: i16, w: Wrapping, l: Layout, p: Pos,
                       wants: seq<Want>, rows: seq<seq<nat>>, data: nat)
    requires Addressable(blob) && ListAt(schema, blob, root, id, w, l, p)
    requires RowsStored(schema, blob, l, p, wants, rows, data) && rows != []
    ensures var r := Rows(schema, blob, root, id, wants);
            && (r == Ok(rows) <==> !OneBitDistance(schema, l) && |rows| <= 0x400_0000 && AllFit32(wants, rows))
            && (r != Ok(rows) ==> r.Err? || (OneBitDistance(schema, l) && r == Ok([])))
  {
    ResolvesUnlessOneBit(schema, blob, root, id, w, l, p);
    if !OneBitDistance(schema, l) {
      RowsExact(schema, blob, l, p, wants, rows, data);
    }
    hide OpenArray, OpenInts, ResolveList, RowsStored, ListAt, OneBitDistance, AllFit32, Columns, ReadRows, Sequence;
  }

  // An empty one comes back empty, or is refused; it is never decoded to anything else.
  lemma EmptyRowsDecoded(schema: Schema, blob: Bytes, root: Layout, id: i16, w: Wrapping, l: Layout, p: Pos,
                         wants: seq<Want>, data: nat)
    requires Addressable(blob) && ListAt(schema, blob, root, id, w, l, p)
            && RowsStored(schema, blob, l, p, wants, [], data)
    ensures var r := Rows(schema, blob, root, id, wants);
            (!OneBitDistance(schema, l) ==> r == Ok([])) && (r.Ok? ==> r.value == [])
  {
    ResolvesUnlessOneBit(schema, blob, root, id, w, l, p);
    if !OneBitDistance(schema, l) {
      RowsRead(schema, blob, l, p, wants, [], data);
    }
    hide OpenArray, OpenInts, ResolveList, RowsStored, ListAt, OneBitDistance;
  }

  // --- Integers ------------------------------------------------------------------------------------------------

  predicate IntsStored(schema: Schema, blob: Bytes, l: Layout, p: Pos, vs: seq<nat>, data: nat) {
    && ListLayout(schema, l) && RangeStored(schema, blob, p, l, data, |vs|) && p.byte <= |blob| && data <= |blob|
    && if 3 in l.fields then
         && var item := schema.layouts[l.fields[3].layoutId];
         && item.fields == map[] && DataFits(blob, item, data, |vs|)
         && forall i :: 0 <= i < |vs| ==> Held(blob, BitOf(ElementAt(item, data, i)), item.bits, vs[i])
       else 2 in l.fields && vs == Zeros(|vs|)
  }

  lemma OpensInts(schema: Schema, blob: Bytes, l: Layout, p: Pos, vs: seq<nat>, data: nat)
    requires Addressable(blob) && IntsStored(schema, blob, l, p, vs, data) && |vs| <= LIST_CAP
    requires !OneBitDistance(schema, l)
    ensures OpenInts(schema, blob, l, p)
            == Ok((RangeView(if |vs| == 0 then p.byte else data, |vs|,
                             if 3 in l.fields then Some(l.fields[3].layoutId) else None),
                   if 3 in l.fields then schema.layouts[l.fields[3].layoutId].bits else 0))
  {
    hide RangeStored, ReadRange, DataFits, Held;
    ReadsRange(schema, blob, p, l, data, |vs|);
    if 3 in l.fields {
      ArrayRecognisedIff(schema, l);
    }
  }

  lemma TooManyInts(schema: Schema, blob: Bytes, l: Layout, p: Pos, vs: seq<nat>, data: nat)
    requires Addressable(blob) && IntsStored(schema, blob, l, p, vs, data) && |vs| > LIST_CAP
    requires !OneBitDistance(schema, l)
    ensures OpenInts(schema, blob, l, p) == Err(CapExceeded(|vs|))
  {
    hide RangeStored, ReadRange, DataFits, Held;
    ReadsRange(schema, blob, p, l, data, |vs|);
    if 3 in l.fields {
      ArrayRecognisedIff(schema, l);
    }
  }

  lemma IntsRead(schema: Schema, blob: Bytes, l: Layout, p: Pos, vs: seq<nat>, data: nat)
    requires Addressable(blob) && IntsStored(schema, blob, l, p, vs, data) && |vs| <= LIST_CAP
    requires !OneBitDistance(schema, l)
    ensures IntsAt(schema, blob, l, p) == Ok(vs)
  {
    OpensInts(schema, blob, l, p, vs, data);
    hide OpenInts, RangeStored, Stride, ElementAt, ElementPos, OneBitDistance, KnownFields, ReadIntegral, Bits;
    if 3 in l.fields {
      var id := l.fields[3].layoutId;
      var item := schema.layouts[id];
      if item.bits == 0 {
        assert vs == Zeros(|vs|);
      } else {
        var range := RangeView(if |vs| == 0 then p.byte else data, |vs|, Some(id));
        forall i | 0 <= i < |vs| ensures ReadInt(schema, blob, range, item.bits, i) == Ok(vs[i]) {
          ElementReads(schema, blob, data, |vs|, id, i);
          ReadsHeld(blob, ElementAt(item, data, i), item.bits, vs[i]);
        }
        SequenceOk(ReadInts(schema, blob, range, item.bits), vs);
      }
    }
  }

  // The same holds of integers, whose width may be none at all or whose item layout may be left out.
  lemma IntsDecodedIff(schema: Schema, blob: Bytes, root: Layout, id: i16, w: Wrapping, l: Layout, p: Pos,
                       vs: seq<nat>, data: nat)
    requires Addressable(blob) && ListAt(schema, blob, root, id, w, l, p)
    requires IntsStored(schema, blob, l, p, vs, data) && vs != []
    ensures var r := Ints(schema, blob, root, id);
            && (r == Ok(vs) <==> !OneBitDistance(schema, l) && |vs| <= 0x400_0000)
            && (r != Ok(vs) ==> r.Err? || (OneBitDistance(schema, l) && r == Ok([])))
  {
    ResolvesUnlessOneBit(schema, blob, root, id, w, l, p);
    if !OneBitDistance(schema, l) {
      if |vs| <= LIST_CAP {
        IntsRead(schema, blob, l, p, vs, data);
      } else {
        TooManyInts(schema, blob, l, p, vs, data);
      }
    }
    hide OpenArray, OpenInts, ResolveList, IntsStored, ListAt, OneBitDistance;
  }

  // --- Strings -------------------------------------------------------------------------------------------------

  // Each element records how far its bytes lie from its own anchor: the array's data start when elements are
  // bit-strided, the element's first byte when they are byte-strided.
  predicate StringsStored(schema: Schema, blob: Bytes, l: Layout, p: Pos, ss: seq<Bytes>, starts: seq<nat>, data: nat) {
    && ListLayout(schema, l) && RangeStored(schema, blob, p, l, data, |ss|) && p.byte <= |blob|
    && 3 in l.fields && |starts| == |ss|
    && var item := schema.layouts[l.fields[3].layoutId];
    && DataFits(blob, item, data, |ss|)
    && forall i :: 0 <= i < |ss| ==> StringStored(schema, blob, ElementAt(item, data, i), item, ss[i], starts[i])
  }

  lemma ElementStringReads(schema: Schema, blob: Bytes, data: nat, count: nat, id: i16, i: nat, s: Bytes, start: nat)
    requires Addressable(blob) && id in schema.layouts && i < count && DataFits(blob, schema.layouts[id], data, count)
    requires StringStored(schema, blob, ElementAt(schema.layouts[id], data, i), schema.layouts[id], s, start)
    ensures ReadStrings(schema, blob, RangeView(data, count, Some(id)), schema.layouts[id])[i] == Ok(s)
  {
    hide StringStored, Stride, ElementAt, ElementPos, ReadStringBytes;
    ElementReads(schema, blob, data, count, id, i);
    ReadsString(schema, blob, ElementAt(schema.layouts[id], data, i), schema.layouts[id], s, start);
  }

  lemma StringsRead(schema: Schema, blob: Bytes, l: Layout, p: Pos, ss: seq<Bytes>, starts: seq<nat>, data: nat)
    requires Addressable(blob) && StringsStored(schema, blob, l, p, ss, starts, data) && |ss| <= LIST_CAP
    requires !OneBitDistance(schema, l)
    ensures StringsAt(schema, blob, l, p) == if |Concat(ss)| <= U32_MAX then Ok(TableOf(ss)) else Err(TableTooLarge)
  {
    hide RangeStored, StringStored, Tabled, TableOf, Concat, Bits, ReadStringBytes;
    var id := l.fields[3].layoutId;
    var item := schema.layouts[id];
    var range := RangeView(if ss == [] then p.byte else data, |ss|, Some(id));
    OpensArray(schema, blob, l, p, data, |ss|);
    hide OpenArray, RangeStored, StringStored, ElementAt, DataFits, OneBitDistance, KnownFields, ReadStrings, Tabled,
      TableOf;
    forall i | 0 <= i < |ss| ensures ReadStrings(schema, blob, range, item)[i] == Ok(ss[i]) {
      ElementStringReads(schema, blob, data, |ss|, id, i, ss[i], starts[i]);
    }
    TabledOk(ReadStrings(schema, blob, range, item), ss, TableTooLarge);
  }

  lemma StringsExact(schema: Schema, blob: Bytes, l: Layout, p: Pos, ss: seq<Bytes>, starts: seq<nat>, data: nat)
    requires Addressable(blob) && StringsStored(schema, blob, l, p, ss, starts, data) && !OneBitDistance(schema, l)
    ensures StringsAt(schema, blob, l, p) ==
            if |ss| > 0x400_0000 then Err(CapExceeded(|ss|))
            else if |Concat(ss)| <= 0xFFFF_FFFF then Ok(TableOf(ss)) else Err(TableTooLarge)
  {
    assert LIST_CAP == 0x400_0000 && U32_MAX == 0xFFFF_FFFF;
    hide *;
    if |ss| <= LIST_CAP {
      StringsRead(schema, blob, l, p, ss, starts, data);
    } else {
      StringsTooMany(schema, blob, l, p, ss, starts, data);
    }
  }

  lemma StringsTooMany(schema: Schema, blob: Bytes, l: Layout, p: Pos, ss: seq<Bytes>, starts: seq<nat>, data: nat)
    requires Addressable(blob) && StringsStored(schema, blob, l, p, ss, starts, data) && |ss| > LIST_CAP
    requires !OneBitDistance(schema, l)
    ensures StringsAt(schema, blob, l, p) == Err(CapExceeded(|ss|))
  {
    hide StringStored, StringsAt, OpenArray, RangeStored, OneBitDistance, Addressable, KnownFields;
    TooManyOpens(schema, blob, l, p, data, |ss|);
    NotOpened(schema, blob, l, p, CapExceeded(|ss|));
  }

  // And of strings: the table that is decoded holds every string under its index.
  lemma StringsDecodedIff(schema: Schema, blob: Bytes, root: Layout, id: i16, w: Wrapping, l: Layout, p: Pos,
                          ss: seq<Bytes>, starts: seq<nat>, data: nat)
    requires Addressable(blob) && ListAt(schema, blob, root, id, w, l, p)
    requires StringsStored(schema, blob, l, p, ss, starts, data) && ss != []
    ensures var r := Strings(schema, blob, root, id);
            && (r == Ok(TableOf(ss)) <==>
                  !OneBitDistance(schema, l) && |ss| <= 0x400_0000 && |Concat(ss)| <= 0xFFFF_FFFF)
            && (r != Ok(TableOf(ss)) ==> r.Err? || (OneBitDistance(schema, l) && r == Ok(EMPTY_TABLE)))
  {
    ResolvesUnlessOneBit(schema, blob, root, id, w, l, p);
    if !OneBitDistance(schema, l) {
      StringsExact(schema, blob, l, p, ss, starts, data);
    }
    TableShape(ss);
    hide OpenArray, OpenInts, ResolveList, StringsStored, ListAt, OneBitDistance, TableOf, Concat, ReadStrings, Tabled;
  }

  // --- Lists that are not there --------------------------------------------------------------------------------

  // A root list the schema leaves out, an optional one that is not set, or one that is set and has no value.
  predicate ListMissing(schema: Schema, blob: Bytes, root: Layout, id: i16) {
    id in root.fields ==>
      && root.fields[id].layoutId in schema.layouts
      && var outer := schema.layouts[root.fields[id].layoutId];
      && OneBitDistance(schema, outer)
      && (Stores(schema, blob, Child(ROOT, root.fields[id]), outer, 1, 0)
          || (2 !in outer.fields && Stores(schema, blob, Child(ROOT, root.fields[id]), outer, 1, 1)))
  }

  // It is read as empty, whatever else the blob holds and whatever layout the value would have.
  lemma MissingIsEmpty(schema: Schema, blob: Bytes, root: Layout, id: i16, wants: seq<Want>)
    requires Addressable(blob) && ListMissing(schema, blob, root, id)
    ensures Rows(schema, blob, root, id, wants) == Ok([])
    ensures Ints(schema, blob, root, id) == Ok([])
    ensures Strings(schema, blob, root, id) == Ok(StringTable([], []))
  {
    hide Held, ReadIntegral, OpenArray, OpenInts;
    if id in root.fields {
      var outer := schema.layouts[root.fields[id].layoutId];
      var at := Child(ROOT, root.fields[id]);
      if Stores(schema, blob, at, outer, 1, 0) {
        ReadsField(blob, at, outer.fields[1], 1, 0);
      } else {
        ReadsField(blob, at, outer.fields[1], 1, 1);
      }
    }
  }
}
