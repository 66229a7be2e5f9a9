/** A writer for schemas, and that parsing inverts it. */
module SchemaWriter {
  import opened Common
  import opened Layouts
  import opened Thrift
  import opened ThriftEncoding
  import opened SchemaParser
  import opened SchemaRoundTrip

  function I16Value(x: i16): Value {
    Int(TI16, ZigZag(x))
  }

  function I32Value(x: i32): Value {
    Int(TI32, ZigZag(x))
  }

  function Then(id: i16, v: Value, more: Fs): Fs {
    Fs.Field(id, true, v, more)
  }

  function FieldStruct(f: F): Value {
    Struct(Then(1, I16Value(f.layoutId), Then(2, I16Value(f.offset), NoField)))
  }

  // The entries of a map, in some order.
  ghost function FieldEntries(m: map<i16, F>): Entries
    decreases |m|
  {
    if m == map[] then NoEntry
    else
      var k :| k in m;
      Entry(I16Value(k), FieldStruct(m[k]), FieldEntries(m - {k}))
  }

  ghost function LayoutStruct(l: Layout): Value {
    Struct(
      Then(1, I32Value(Min(l.size, 0x7FFF_FFFF)),
      Then(2, I16Value(l.bits),
      Then(3, Map(TI16, TStruct, FieldEntries(l.fields)),
      Then(4, Binary(l.typeName), NoField)))))
  }

  ghost function LayoutEntries(m: map<i16, Layout>): Entries
    decreases |m|
  {
    if m == map[] then NoEntry
    else
      var k :| k in m;
      Entry(I16Value(k), LayoutStruct(m[k]), LayoutEntries(m - {k}))
  }

  ghost function SchemaFields(s: Schema): Fs {
    Then(1, Bool(s.relaxTypeChecks),
    Then(2, Map(TI16, TStruct, LayoutEntries(s.layouts)),
    Then(3, I16Value(s.rootLayout),
    Then(4, I32Value(s.fileVersion), NoField))))
  }

  // Sizes are written as signed, and lengths must fit their headers.
  predicate WritableLayout(l: Layout) {
    l.size <= 0x7FFF_FFFF && |l.fields| <= U32_MAX && |l.typeName| <= U64_MAX
  }

  predicate WritableSchema(s: Schema) {
    |s.layouts| <= U32_MAX && forall id :: id in s.layouts ==> WritableLayout(s.layouts[id])
  }

  lemma IntMeant(x: i32)
    ensures WellFormed(I32Value(x)) && AsI32(I32Value(x)) == Ok(x)
    ensures -0x8000 <= x <= 0x7FFF ==> WellFormed(I16Value(x as i16)) && AsI16(I16Value(x as i16)) == Ok(x as i16)
  {
    ZigZagBack(x);
  }

  lemma FieldStructMeant(f: F)
    ensures WellFormed(FieldStruct(f)) && FieldMeant(FieldsOf(FieldStruct(f)), NO_FIELD) == Ok(f)
  {
    IntMeant(f.layoutId);
    IntMeant(f.offset);
    hide AsI16, ZigZag;
    var second := Then(2, I16Value(f.offset), NoField);
    assert FieldMeant(second, Layouts.Field(f.layoutId, 0)) == Ok(f);
    assert FieldsWellFormed(second, 1);
  }

  lemma MapSplit<V>(m: map<i16, V>, done: map<i16, V>, k: i16)
    requires k in m
    ensures done[k := m[k]] + (m - {k}) == done + m && |m| == |m - {k}| + 1
  {
    assert m.Keys == (m - {k}).Keys + {k};
  }

  lemma SomeFieldEntry(m: map<i16, F>) returns (k: i16)
    requires m != map[]
    ensures k in m && FieldEntries(m) == Entry(I16Value(k), FieldStruct(m[k]), FieldEntries(m - {k}))
  {
    hide FieldStruct, I16Value;
    k :| k in m && FieldEntries(m) == Entry(I16Value(k), FieldStruct(m[k]), FieldEntries(m - {k}));
  }

  lemma EntryFits(k: Value, v: Value, rest: Entries)
    requires WellFormed(k) && k.Int? && k.width == TI16 && WellFormed(v) && v.Struct?
    ensures EntriesWellFormed(Entry(k, v, rest), TI16, TStruct) == EntriesWellFormed(rest, TI16, TStruct)
    ensures EntryCount(Entry(k, v, rest)) == EntryCount(rest) + 1
  {
  }

  lemma {:induction false} FieldEntriesMeant(m: map<i16, F>, done: map<i16, F>)
    ensures EntriesWellFormed(FieldEntries(m), TI16, TStruct) && EntryCount(FieldEntries(m)) == |m|
    ensures FieldMapMeant(FieldEntries(m), done) == Ok(done + m)
    decreases |m|
  {
    if m == map[] {
      assert done + m == done;
    } else {
      var k := SomeFieldEntry(m);
      MapSplit(m, done, k);
      IntMeant(k);
      FieldStructMeant(m[k]);
      FieldEntriesMeant(m - {k}, done[k := m[k]]);
      EntryFits(I16Value(k), FieldStruct(m[k]), FieldEntries(m - {k}));
      hide FieldEntries, FieldStruct, FieldMeant, AsI16, EntriesWellFormed, EntryCount, WellFormed;
    }
  }

  lemma MapFits(entries: Entries)
    requires EntriesWellFormed(entries, TI16, TStruct) && EntryCount(entries) <= U32_MAX
    ensures WellFormed(Map(TI16, TStruct, entries)) && StructMap(Map(TI16, TStruct, entries))
  {
  }

  lemma FieldMapField(v: Value, l: Layout, m: map<i16, F>)
    requires StructMap(v) && FieldMapMeant(v.entries, map[]) == Ok(m)
    ensures LayoutFieldMeant(3, v, l) == Ok(l.(fields := m))
  {
    hide FieldMapMeant, AsI16, AsI32, TypeOfValue;
  }

  lemma LayoutMapField(v: Value, s: Schema, m: map<i16, Layout>)
    requires StructMap(v) && LayoutMapMeant(v.entries, map[]) == Ok(m)
    ensures SchemaFieldMeant(2, v, s) == Ok(s.(layouts := m))
  {
    hide LayoutMapMeant, AsI16, AsI32, TypeOfValue;
  }

  lemma FieldMapFieldMeant(m: map<i16, F>, l: Layout)
    requires |m| <= U32_MAX
    ensures LayoutFieldMeant(3, Map(TI16, TStruct, FieldEntries(m)), l) == Ok(l.(fields := m))
    ensures WellFormed(Map(TI16, TStruct, FieldEntries(m)))
  {
    hide *;
    FieldEntriesMeant(m, map[]);
    assert map[] + m == m;
    MapFits(FieldEntries(m));
    FieldMapField(Map(TI16, TStruct, FieldEntries(m)), l, m);
  }

  lemma LayoutFieldsMeant(l: Layout)
    requires WritableLayout(l)
    ensures LayoutFieldMeant(1, I32Value(l.size), NO_LAYOUT) == Ok(Layout(l.size, 0, map[], []))
    ensures LayoutFieldMeant(2, I16Value(l.bits), Layout(l.size, 0, map[], [])) == Ok(Layout(l.size, l.bits, map[], []))
    ensures LayoutFieldMeant(3, Map(TI16, TStruct, FieldEntries(l.fields)), Layout(l.size, l.bits, map[], []))
            == Ok(Layout(l.size, l.bits, l.fields, []))
    ensures LayoutFieldMeant(4, Binary(l.typeName), Layout(l.size, l.bits, l.fields, [])) == Ok(l)
  {
    IntMeant(l.size);
    IntMeant(l.bits);
    FieldMapFieldMeant(l.fields, Layout(l.size, l.bits, map[], []));
    hide FieldEntries, FieldMapMeant, AsI16, AsI32, ZigZag, WellFormed;
  }

  // One more field in front, of the next id.
  lemma ThenFits(id: i16, v: Value, more: Fs)
    requires 1 <= id < 0x7FFF && WellFormed(v) && FieldsWellFormed(more, id)
    ensures FieldsWellFormed(Then(id, v, more), id - 1)
  {
    hide WellFormed;
  }

  lemma NothingFits(last: i16)
    ensures FieldsWellFormed(NoField, last)
    ensures forall l: Layout :: LayoutMeant(NoField, l) == Ok(l)
    ensures forall s: Schema :: SchemaMeant(NoField, s) == Ok(s)
  {
  }

  lemma LayoutStep(id: i16, v: Value, more: Fs, l: Layout, l': Layout, whole: Layout)
    requires LayoutFieldMeant(id, v, l) == Ok(l') && LayoutMeant(more, l') == Ok(whole)
    ensures LayoutMeant(Then(id, v, more), l) == Ok(whole)
  {
    hide LayoutFieldMeant;
  }

  lemma BinaryFits(data: Bytes)
    requires |data| <= U64_MAX
    ensures WellFormed(Binary(data))
  {
  }

  lemma LayoutStructIs(l: Layout)
    requires WritableLayout(l)
    ensures LayoutStruct(l)
            == Struct(Then(1, I32Value(l.size),
                      Then(2, I16Value(l.bits),
                      Then(3, Map(TI16, TStruct, FieldEntries(l.fields)),
                      Then(4, Binary(l.typeName), NoField)))))
    ensures |l.typeName| <= U64_MAX && l.size <= 0x7FFF_FFFF
  {
  }

  lemma StructOf(fields: Fs)
    ensures FieldsOf(Struct(fields)) == fields && (FieldsWellFormed(fields, 0) ==> WellFormed(Struct(fields)))
  {
  }

  lemma LayoutStructMeant(l: Layout)
    requires WritableLayout(l)
    ensures WellFormed(LayoutStruct(l)) && LayoutMeant(FieldsOf(LayoutStruct(l)), NO_LAYOUT) == Ok(l)
  {
    assert NO_LAYOUT == Layout(0, 0, map[], []);
    LayoutStructIs(l);
    hide *;
    IntMeant(l.size);
    IntMeant(l.bits);
    BinaryFits(l.typeName);
    FieldMapFieldMeant(l.fields, Layout(l.size, l.bits, map[], []));
    LayoutFieldsMeant(l);
    var f4 := Then(4, Binary(l.typeName), NoField);
    var f3 := Then(3, Map(TI16, TStruct, FieldEntries(l.fields)), f4);
    var f2 := Then(2, I16Value(l.bits), f3);
    NothingFits(4);
    ThenFits(4, Binary(l.typeName), NoField);
    ThenFits(3, Map(TI16, TStruct, FieldEntries(l.fields)), f4);
    ThenFits(2, I16Value(l.bits), f3);
    ThenFits(1, I32Value(l.size), f2);
    LayoutStep(4, Binary(l.typeName), NoField, Layout(l.size, l.bits, l.fields, []), l, l);
    LayoutStep(3, Map(TI16, TStruct, FieldEntries(l.fields)), f4, Layout(l.size, l.bits, map[], []),
               Layout(l.size, l.bits, l.fields, []), l);
    LayoutStep(2, I16Value(l.bits), f3, Layout(l.size, 0, map[], []), Layout(l.size, l.bits, map[], []), l);
    LayoutStep(1, I32Value(l.size), f2, Layout(0, 0, map[], []), Layout(l.size, 0, map[], []), l);
    StructOf(Then(1, I32Value(l.size), f2));
  }

  lemma SomeLayoutEntry(m: map<i16, Layout>) returns (k: i16)
    requires m != map[]
    ensures k in m && LayoutEntries(m) == Entry(I16Value(k), LayoutStruct(m[k]), LayoutEntries(m - {k}))
  {
    hide LayoutStruct, I16Value;
    k :| k in m && LayoutEntries(m) == Entry(I16Value(k), LayoutStruct(m[k]), LayoutEntries(m - {k}));
  }

  lemma {:induction false} LayoutEntriesMeant(m: map<i16, Layout>, done: map<i16, Layout>)
    requires forall id :: id in m ==> WritableLayout(m[id])
    ensures EntriesWellFormed(LayoutEntries(m), TI16, TStruct) && EntryCount(LayoutEntries(m)) == |m|
    ensures LayoutMapMeant(LayoutEntries(m), done) == Ok(done + m)
    decreases |m|
  {
    if m == map[] {
      assert done + m == done;
    } else {
      hide WritableLayout;
      var k := SomeLayoutEntry(m);
      MapSplit(m, done, k);
      IntMeant(k);
      LayoutStructMeant(m[k]);
      LayoutEntriesMeant(m - {k}, done[k := m[k]]);
      assert LayoutStruct(m[k]).Struct?;
      hide LayoutEntries, LayoutStruct, LayoutMeant, AsI16, EntriesWellFormed, EntryCount, WellFormed;
      EntryFits(I16Value(k), LayoutStruct(m[k]), LayoutEntries(m - {k}));
    }
  }

  lemma LayoutMapFieldMeant(m: map<i16, Layout>, s: Schema)
    requires |m| <= U32_MAX && forall id :: id in m ==> WritableLayout(m[id])
    ensures SchemaFieldMeant(2, Map(TI16, TStruct, LayoutEntries(m)), s) == Ok(s.(layouts := m))
    ensures WellFormed(Map(TI16, TStruct, LayoutEntries(m)))
  {
    hide *;
    LayoutEntriesMeant(m, map[]);
    assert map[] + m == m;
    MapFits(LayoutEntries(m));
    LayoutMapField(Map(TI16, TStruct, LayoutEntries(m)), s, m);
  }

  lemma SchemaFieldsMeant(s: Schema)
    requires WritableSchema(s)
    ensures SchemaFieldMeant(1, Bool(s.relaxTypeChecks), NO_SCHEMA) == Ok(Schema(0, s.relaxTypeChecks, map[], 0))
    ensures SchemaFieldMeant(2, Map(TI16, TStruct, LayoutEntries(s.layouts)), Schema(0, s.relaxTypeChecks, map[], 0))
            == Ok(Schema(0, s.relaxTypeChecks, s.layouts, 0))
    ensures SchemaFieldMeant(3, I16Value(s.rootLayout), Schema(0, s.relaxTypeChecks, s.layouts, 0))
            == Ok(Schema(0, s.relaxTypeChecks, s.layouts, s.rootLayout))
    ensures SchemaFieldMeant(4, I32Value(s.fileVersion), Schema(0, s.relaxTypeChecks, s.layouts, s.rootLayout)) == Ok(s)
  {
    IntMeant(s.rootLayout);
    IntMeant(s.fileVersion);
    LayoutMapFieldMeant(s.layouts, Schema(0, s.relaxTypeChecks, map[], 0));
    hide LayoutEntries, LayoutMapMeant, AsI16, AsI32, WritableSchema, ZigZag, WellFormed;
  }

  lemma SchemaStep(id: i16, v: Value, more: Fs, s: Schema, s': Schema, whole: Schema)
    requires SchemaFieldMeant(id, v, s) == Ok(s') && SchemaMeant(more, s') == Ok(whole)
    ensures SchemaMeant(Then(id, v, more), s) == Ok(whole)
  {
    hide SchemaFieldMeant;
  }

  lemma SchemaFieldsAre(s: Schema)
    ensures SchemaFields(s)
            == Then(1, Bool(s.relaxTypeChecks),
               Then(2, Map(TI16, TStruct, LayoutEntries(s.layouts)),
               Then(3, I16Value(s.rootLayout),
               Then(4, I32Value(s.fileVersion), NoField))))
    ensures WellFormed(Bool(s.relaxTypeChecks))
  {
  }

  lemma SchemaIsMeant(s: Schema)
    requires WritableSchema(s)
    ensures FieldsWellFormed(SchemaFields(s), 0) && SchemaMeant(SchemaFields(s), NO_SCHEMA) == Ok(s)
  {
    LayoutMapFieldMeant(s.layouts, NO_SCHEMA);
    SchemaFieldsAre(s);
    hide *;
    IntMeant(s.rootLayout);
    IntMeant(s.fileVersion);
    SchemaFieldsMeant(s);
    var m := Map(TI16, TStruct, LayoutEntries(s.layouts));
    var f4 := Then(4, I32Value(s.fileVersion), NoField);
    var f3 := Then(3, I16Value(s.rootLayout), f4);
    var f2 := Then(2, m, f3);
    var after1 := Schema(0, s.relaxTypeChecks, map[], 0);
    var after2 := Schema(0, s.relaxTypeChecks, s.layouts, 0);
    var after3 := Schema(0, s.relaxTypeChecks, s.layouts, s.rootLayout);
    NothingFits(4);
    ThenFits(4, I32Value(s.fileVersion), NoField);
    ThenFits(3, I16Value(s.rootLayout), f4);
    ThenFits(2, m, f3);
    ThenFits(1, Bool(s.relaxTypeChecks), f2);
    SchemaStep(4, I32Value(s.fileVersion), NoField, after3, s, s);
    SchemaStep(3, I16Value(s.rootLayout), f4, after2, after3, s);
    SchemaStep(2, m, f3, after1, after2, s);
    SchemaStep(1, Bool(s.relaxTypeChecks), f2, NO_SCHEMA, after1, s);
  }

  // Every schema comes back from what it is written as, and so it does from any other input that differs from that
  // only in unknown fields and header forms.
  lemma ParseInvertsWriting(s: Schema, fields: Fs, rest: Bytes)
    requires WritableSchema(s) && FieldsWellFormed(fields, 0) && BareSchema(fields) == BareSchema(SchemaFields(s))
    ensures FieldsWellFormed(SchemaFields(s), 0)
    ensures Parsed(WrittenFields(SchemaFields(s), 0) + rest) == Ok(s)
    ensures Parsed(WrittenFields(fields, 0) + rest) == Ok(s)
  {
    hide *;
    SchemaIsMeant(s);
    ParsedIsMeant(SchemaFields(s), rest);
    UnknownFieldsDoNotMatter(SchemaFields(s), fields, rest, rest);
  }
}
