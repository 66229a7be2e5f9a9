/** What parsing makes of every schema that can be written, with whatever unknown fields in between. */
module SchemaRoundTrip {
  import opened Common
  import opened Layouts
  import opened Thrift
  import opened ThriftEncoding
  import opened SchemaParser

  type F = Layouts.Field

  type Fs = ThriftEncoding.Fields

  // --- What a written struct means -----------------------------------------------------------------------------

  function AsI16(v: Value): Result<i16, ThriftError> {
    if v.Int? && -0x8000 <= UnZigZag(v.raw) <= 0x7FFF then Ok(UnZigZag(v.raw) as i16) else Err(OutOfRange)
  }

  function AsI32(v: Value): Result<i32, ThriftError> {
    if v.Int? && -0x8000_0000 <= UnZigZag(v.raw) <= 0x7FFF_FFFF then Ok(UnZigZag(v.raw) as i32) else Err(OutOfRange)
  }

  function FieldMeant(fields: Fs, f: F): Result<F, ThriftError> {
    match fields
    case NoField => Ok(f)
    case Field(id, _, v, more) =>
      if TypeOfValue(v) == TI16 && (id == 1 || id == 2) then
        match AsI16(v)
        case Err(e) => Err(e)
        case Ok(x) => FieldMeant(more, if id == 1 then f.(layoutId := x) else f.(offset := x))
      else FieldMeant(more, f)
  }

  function FieldsOf(v: Value): Fs {
    if v.Struct? then v.fields else NoField
  }

  function FieldMapMeant(entries: Entries, m: map<i16, F>): Result<map<i16, F>, ThriftError> {
    match entries
    case NoEntry => Ok(m)
    case Entry(k, v, rest) =>
      match AsI16(k)
      case Err(e) => Err(e)
      case Ok(key) =>
        match FieldMeant(FieldsOf(v), NO_FIELD)
        case Err(e) => Err(e)
        case Ok(f) => FieldMapMeant(rest, m[key := f])
  }

  predicate StructMap(v: Value) {
    v.Map? && (v.entries.NoEntry? || (v.key == TI16 && v.val == TStruct))
  }

  function LayoutFieldMeant(id: i16, v: Value, l: Layout): Result<Layout, ThriftError> {
    if id == 1 && TypeOfValue(v) == TI32 then
      match AsI32(v)
      case Err(e) => Err(e)
      case Ok(x) => if x < 0 then Err(NegativeValue) else Ok(l.(size := x))
    else if id == 2 && TypeOfValue(v) == TI16 then
      match AsI16(v)
      case Err(e) => Err(e)
      case Ok(x) => if x < 0 then Err(NegativeValue) else Ok(l.(bits := x))
    else if id == 3 && v.Map? then
      if !StructMap(v) then Err(UnexpectedMapTypes)
      else match FieldMapMeant(v.entries, map[])
        case Err(e) => Err(e)
        case Ok(m) => Ok(l.(fields := m))
    else if id == 4 && v.Binary? then Ok(l.(typeName := v.data))
    else Ok(l)
  }

  function LayoutMeant(fields: Fs, l: Layout): Result<Layout, ThriftError> {
    match fields
    case NoField => Ok(l)
    case Field(id, _, v, more) =>
      match LayoutFieldMeant(id, v, l)
      case Err(e) => Err(e)
      case Ok(l') => LayoutMeant(more, l')
  }

  function LayoutMapMeant(entries: Entries, m: map<i16, Layout>): Result<map<i16, Layout>, ThriftError> {
    match entries
    case NoEntry => Ok(m)
    case Entry(k, v, rest) =>
      match AsI16(k)
      case Err(e) => Err(e)
      case Ok(key) =>
        match LayoutMeant(FieldsOf(v), NO_LAYOUT)
        case Err(e) => Err(e)
        case Ok(l) => LayoutMapMeant(rest, m[key := l])
  }

  function SchemaFieldMeant(id: i16, v: Value, s: Schema): Result<Schema, ThriftError> {
    if id == 1 && v.Bool? then Ok(s.(relaxTypeChecks := v.flag))
    else if id == 2 && v.Map? then
      if !StructMap(v) then Err(UnexpectedMapTypes)
      else match LayoutMapMeant(v.entries, map[])
        case Err(e) => Err(e)
        case Ok(m) => Ok(s.(layouts := m))
    else if id == 3 && TypeOfValue(v) == TI16 then
      match AsI16(v)
      case Err(e) => Err(e)
      case Ok(x) => Ok(s.(rootLayout := x))
    else if id == 4 && TypeOfValue(v) == TI32 then
      match AsI32(v)
      case Err(e) => Err(e)
      case Ok(x) => Ok(s.(fileVersion := x))
    else Ok(s)
  }

  function SchemaMeant(fields: Fs, s: Schema): Result<Schema, ThriftError> {
    match fields
    case NoField => Ok(s)
    case Field(id, _, v, more) =>
      match SchemaFieldMeant(id, v, s)
      case Err(e) => Err(e)
      case Ok(s') => SchemaMeant(more, s')
  }

  // --- Parsing reads exactly that ------------------------------------------------------------------------------

  // A read that succeeds with the meaning, right behind what was written, or fails as the meaning does.
  predicate Means<T(==)>(step: Step<T>, meant: Result<T, ThriftError>, next: nat) {
    step == match meant case Ok(x) => Ok(Read(x, next)) case Err(e) => Err(e)
  }

  lemma ReadsI16(b: Bytes, pos: nat, v: Value)
    requires WellFormed(v) && v.Int? && At(b, pos, Written(v))
    ensures Means(I16At(b, pos), AsI16(v), pos + |Written(v)|)
    ensures Means(I32At(b, pos), AsI32(v), pos + |Written(v)|)
  {
    hide VarintAt, Varint, At;
    ReadsVarint(b, pos, v.raw);
  }

  // The front of a struct that is not at its end: header, value and the rest, each in its place.
  lemma FieldParts(b: Bytes, pos: nat, fields: Fs, last: i16) returns (at: nat, after: nat)
    requires FieldsWellFormed(fields, last) && fields.Field? && At(b, pos, WrittenFields(fields, last))
    ensures FieldHeaderAt(b, pos, last) == Ok(Read(Some(FieldHeader(TypeOfValue(fields.value), fields.id)), at))
    ensures At(b, at, Written(fields.value)) && after == at + |Written(fields.value)|
    ensures At(b, after, WrittenFields(fields.more, fields.id))
    ensures after + |WrittenFields(fields.more, fields.id)| == pos + |WrittenFields(fields, last)|
    ensures WellFormed(fields.value) && FieldsWellFormed(fields.more, fields.id)
    ensures SkipValueFrom(b, at, TypeOfValue(fields.value)) == Ok(after)
  {
    hide At, Written, SkipValueFrom, FieldHeaderAt, Header, TypeOfValue, WellFormed;
    var t := TypeOfValue(fields.value);
    var head, value, rest := Header(fields.id, fields.short, t, last), Written(fields.value),
      WrittenFields(fields.more, fields.id);
    AtSplit(b, pos, head, value + rest);
    AtSplit(b, pos + |head|, value, rest);
    ValueType(fields.value);
    ReadsHeader(b, pos, fields.id, fields.short, t, last);
    at := pos + |head|;
    SkipsValue(b, at, fields.value);
    after := at + |value|;
  }

  // One turn of the parser's loop, once the header has been read.
  lemma FieldFromStep(b: Bytes, pos: nat, last: i16, f: F, at: nat, t: TType, id: i16)
    requires FieldHeaderAt(b, pos, last) == Ok(Read(Some(FieldHeader(t, id)), at))
    ensures FieldFrom(b, pos, last, f)
            == if t == TI16 && (id == 1 || id == 2) then
                 (match I16At(b, at)
                  case Err(e) => Err(e)
                  case Ok(v) =>
                    FieldFrom(b, v.next, id, if id == 1 then f.(layoutId := v.value) else f.(offset := v.value)))
               else match SkipValueFrom(b, at, t) case Err(e) => Err(e) case Ok(next) => FieldFrom(b, next, id, f)
  {
  }

  lemma {:induction false} ReadsFieldMeant(b: Bytes, pos: nat, fields: Fs, last: i16, f: F)
    requires FieldsWellFormed(fields, last) && At(b, pos, WrittenFields(fields, last))
    ensures Means(FieldFrom(b, pos, last, f), FieldMeant(fields, f), pos + |WrittenFields(fields, last)|)
    decreases fields
  {
    hide At, Written, SkipValueFrom, FieldHeaderAt, I16At, AsI16, FieldsWellFormed, WellFormed, TypeOfValue, Header;
    if fields.NoField? {
      ReadsStructEnd(b, pos, last);
    } else {
      var at, after := FieldParts(b, pos, fields, last);
      var v := fields.value;
      FieldFromStep(b, pos, last, f, at, TypeOfValue(v), fields.id);
      hide FieldFrom, WrittenFields;
      if TypeOfValue(v) == TI16 && (fields.id == 1 || fields.id == 2) {
        TypedInt(v);
        ReadsI16(b, at, v);
        if AsI16(v).Ok? {
          var x := AsI16(v).value;
          var f' := if fields.id == 1 then f.(layoutId := x) else f.(offset := x);
          ReadsFieldMeant(b, after, fields.more, fields.id, f');
        }
      } else {
        ReadsFieldMeant(b, after, fields.more, fields.id, f);
      }
    }
  }

  lemma TypedInt(v: Value)
    requires WellFormed(v)
    ensures TypeOfValue(v) == TI16 || TypeOfValue(v) == TI32 ==> v.Int?
    ensures (TypeOfValue(v) == TTrue || TypeOfValue(v) == TFalse <==> v.Bool?)
            && (v.Bool? ==> v.flag == (TypeOfValue(v) == TTrue))
    ensures (TypeOfValue(v) == TMap <==> v.Map?) && (TypeOfValue(v) == TBinary <==> v.Binary?)
  {
  }

  lemma EntryShape(entries: Entries)
    requires EntriesWellFormed(entries, TI16, TStruct) && entries.Entry?
    ensures entries.k.Int? && entries.v.Struct? && WellFormed(entries.k) && FieldsWellFormed(entries.v.fields, 0)
    ensures EntriesWellFormed(entries.rest, TI16, TStruct)
    ensures WrittenEntries(entries)
            == Written(entries.k) + (WrittenFields(entries.v.fields, 0) + WrittenEntries(entries.rest))
  {
    TypedInt(entries.k);
    StructTyped(entries.v);
    assert WrittenElement(entries.k) == Written(entries.k);
    assert WrittenElement(entries.v) == Written(entries.v) == WrittenFields(entries.v.fields, 0);
  }

  lemma EntryParts(b: Bytes, pos: nat, entries: Entries) returns (mid: nat, after: nat)
    requires EntriesWellFormed(entries, TI16, TStruct) && entries.Entry? && At(b, pos, WrittenEntries(entries))
    ensures entries.k.Int? && entries.v.Struct? && WellFormed(entries.k)
    ensures At(b, pos, Written(entries.k)) && mid == pos + |Written(entries.k)|
    ensures FieldsWellFormed(entries.v.fields, 0) && At(b, mid, WrittenFields(entries.v.fields, 0))
    ensures after == mid + |WrittenFields(entries.v.fields, 0)|
    ensures At(b, after, WrittenEntries(entries.rest)) && EntriesWellFormed(entries.rest, TI16, TStruct)
    ensures after + |WrittenEntries(entries.rest)| == pos + |WrittenEntries(entries)|
  {
    hide *;
    EntryShape(entries);
    var k, v, rest := Written(entries.k), WrittenFields(entries.v.fields, 0), WrittenEntries(entries.rest);
    AtSplit(b, pos, k, v + rest);
    AtSplit(b, pos + |k|, v, rest);
    mid := pos + |k|;
    after := mid + |v|;
  }

  lemma StructTyped(v: Value)
    requires WellFormed(v)
    ensures TypeOfValue(v) == TStruct <==> v.Struct?
  {
  }

  lemma FieldsOfStruct(entries: Entries)
    ensures entries.Entry? && entries.v.Struct? ==> FieldsOf(entries.v) == entries.v.fields
  {
  }

  // A key, a value and the rest, each read as it was written, make the whole map read as it was written.
  lemma FieldsFollow(b: Bytes, pos: nat, mid: nat, after: nat, end: nat, entries: Entries, m: map<i16, F>)
    requires entries.Entry? && Means(I16At(b, pos), AsI16(entries.k), mid)
    requires Means(FieldFrom(b, mid, 0, NO_FIELD), FieldMeant(FieldsOf(entries.v), NO_FIELD), after)
    requires AsI16(entries.k).Ok? && FieldMeant(FieldsOf(entries.v), NO_FIELD).Ok? ==>
               var more := m[AsI16(entries.k).value := FieldMeant(FieldsOf(entries.v), NO_FIELD).value];
               Means(FieldsFrom(b, after, EntryCount(entries.rest), more), FieldMapMeant(entries.rest, more), end)
    ensures Means(FieldsFrom(b, pos, EntryCount(entries), m), FieldMapMeant(entries, m), end)
  {
    hide I16At, AsI16, FieldFrom, FieldMeant, FieldsOf;
  }

  lemma NoFields(b: Bytes, pos: nat, entries: Entries, m: map<i16, F>)
    requires entries.NoEntry?
    ensures Means(FieldsFrom(b, pos, EntryCount(entries), m), FieldMapMeant(entries, m),
                  pos + |WrittenEntries(entries)|)
  {
  }

  lemma {:induction false} ReadsFieldsMeant(b: Bytes, pos: nat, entries: Entries, m: map<i16, F>)
    requires EntriesWellFormed(entries, TI16, TStruct) && At(b, pos, WrittenEntries(entries))
    ensures Means(FieldsFrom(b, pos, EntryCount(entries), m), FieldMapMeant(entries, m),
                  pos + |WrittenEntries(entries)|)
    decreases entries
  {
    hide *;
    if entries.NoEntry? {
      NoFields(b, pos, entries, m);
    } else {
      var mid, after := EntryParts(b, pos, entries);
      FieldsOfStruct(entries);
      ReadsI16(b, pos, entries.k);
      ReadsFieldMeant(b, mid, entries.v.fields, 0, NO_FIELD);
      var k, x := AsI16(entries.k), FieldMeant(FieldsOf(entries.v), NO_FIELD);
      if k.Ok? && x.Ok? {
        ReadsFieldsMeant(b, after, entries.rest, m[k.value := x.value]);
      }
      FieldsFollow(b, pos, mid, after, pos + |WrittenEntries(entries)|, entries, m);
    }
  }

  lemma MapParts(b: Bytes, pos: nat, v: Value) returns (body: nat)
    requires WellFormed(v) && v.Map? && At(b, pos, Written(v))
    ensures var n := EntryCount(v.entries);
            && MapHeaderAt(b, pos)
               == Ok(Read(if n == 0 then MapHeader(TStop, TStop, 0) else MapHeader(v.key, v.val, n), body))
            && (n == 0 <==> v.entries.NoEntry?)
    ensures At(b, body, WrittenEntries(v.entries)) && body + |WrittenEntries(v.entries)| == pos + |Written(v)|
    ensures EntriesWellFormed(v.entries, v.key, v.val)
  {
    hide At, MapHeaderAt;
    var head := MapHead(v.key, v.val, EntryCount(v.entries));
    AtSplit(b, pos, head, WrittenEntries(v.entries));
    ReadsMapHead(b, pos, v.key, v.val, EntryCount(v.entries));
    body := pos + |head|;
  }

  function FieldMapOf(v: Value): Result<map<i16, F>, ThriftError>
    requires v.Map?
  {
    if StructMap(v) then FieldMapMeant(v.entries, map[]) else Err(UnexpectedMapTypes)
  }

  function LayoutMapOf(v: Value): Result<map<i16, Layout>, ThriftError>
    requires v.Map?
  {
    if StructMap(v) then LayoutMapMeant(v.entries, map[]) else Err(UnexpectedMapTypes)
  }

  lemma ReadsFieldMap(b: Bytes, pos: nat, v: Value)
    requires WellFormed(v) && v.Map? && At(b, pos, Written(v))
    ensures Means(FieldMapAt(b, pos), FieldMapOf(v), pos + |Written(v)|)
  {
    hide At, Written, MapHeaderAt, WellFormed, EntriesWellFormed;
    var body := MapParts(b, pos, v);
    if StructMap(v) {
      NoEntryFits(v.entries, v.key, v.val);
      ReadsFieldsMeant(b, body, v.entries, map[]);
    }
  }

  lemma NoEntryFits(entries: Entries, kt: TType, vt: TType)
    requires EntriesWellFormed(entries, kt, vt)
    ensures entries.NoEntry? ==> EntriesWellFormed(entries, TI16, TStruct)
  {
  }

  lemma ReadsBinary(b: Bytes, pos: nat, v: Value)
    requires WellFormed(v) && v.Binary? && At(b, pos, Written(v))
    ensures BinaryAt(b, pos) == Ok(Read(v.data, pos + |Written(v)|))
  {
    hide VarintAt, Varint;
    AtSplit(b, pos, Varint(|v.data|), v.data);
    ReadsVarint(b, pos, |v.data|);
  }

  lemma ReadsLayoutField(b: Bytes, pos: nat, id: i16, v: Value, l: Layout)
    requires WellFormed(v) && At(b, pos, Written(v))
    requires SkipValueFrom(b, pos, TypeOfValue(v)) == Ok(pos + |Written(v)|)
    ensures Means(LayoutFieldAt(b, pos, FieldHeader(TypeOfValue(v), id), l), LayoutFieldMeant(id, v, l),
                  pos + |Written(v)|)
  {
    hide At, Written, I16At, I32At, AsI16, AsI32, FieldMapAt, FieldMapMeant, BinaryAt, SkipValueFrom, WellFormed,
      StructMap;
    TypedInt(v);
    if v.Int? {
      ReadsI16(b, pos, v);
    } else if v.Map? {
      ReadsFieldMap(b, pos, v);
    } else if v.Binary? {
      ReadsBinary(b, pos, v);
    }
  }

  lemma {:induction false} ReadsLayoutMeant(b: Bytes, pos: nat, fields: Fs, last: i16, l: Layout)
    requires FieldsWellFormed(fields, last) && At(b, pos, WrittenFields(fields, last))
    ensures Means(LayoutFrom(b, pos, last, l), LayoutMeant(fields, l), pos + |WrittenFields(fields, last)|)
    decreases fields
  {
    hide At, Written, SkipValueFrom, FieldHeaderAt, LayoutFieldAt, LayoutFieldMeant, FieldsWellFormed, WellFormed,
      TypeOfValue;
    if fields.NoField? {
      ReadsStructEnd(b, pos, last);
    } else {
      var at, after := FieldParts(b, pos, fields, last);
      ReadsLayoutField(b, at, fields.id, fields.value, l);
      var meant := LayoutFieldMeant(fields.id, fields.value, l);
      if meant.Ok? {
        ReadsLayoutMeant(b, after, fields.more, fields.id, meant.value);
      }
    }
  }

  // A key, a value and the rest, each read as it was written, make the whole map read as it was written.
  lemma LayoutsFollow(b: Bytes, pos: nat, mid: nat, after: nat, end: nat, entries: Entries, m: map<i16, Layout>)
    requires entries.Entry? && Means(I16At(b, pos), AsI16(entries.k), mid)
    requires Means(LayoutFrom(b, mid, 0, NO_LAYOUT), LayoutMeant(FieldsOf(entries.v), NO_LAYOUT), after)
    requires AsI16(entries.k).Ok? && LayoutMeant(FieldsOf(entries.v), NO_LAYOUT).Ok? ==>
               var more := m[AsI16(entries.k).value := LayoutMeant(FieldsOf(entries.v), NO_LAYOUT).value];
               Means(LayoutsFrom(b, after, EntryCount(entries.rest), more), LayoutMapMeant(entries.rest, more), end)
    ensures Means(LayoutsFrom(b, pos, EntryCount(entries), m), LayoutMapMeant(entries, m), end)
  {
    hide I16At, AsI16, LayoutFrom, LayoutMeant, FieldsOf;
  }

  lemma NoLayouts(b: Bytes, pos: nat, entries: Entries, m: map<i16, Layout>)
    requires entries.NoEntry?
    ensures Means(LayoutsFrom(b, pos, EntryCount(entries), m), LayoutMapMeant(entries, m),
                  pos + |WrittenEntries(entries)|)
  {
  }

  lemma {:induction false} ReadsLayoutsMeant(b: Bytes, pos: nat, entries: Entries, m: map<i16, Layout>)
    requires EntriesWellFormed(entries, TI16, TStruct) && At(b, pos, WrittenEntries(entries))
    ensures Means(LayoutsFrom(b, pos, EntryCount(entries), m), LayoutMapMeant(entries, m),
                  pos + |WrittenEntries(entries)|)
    decreases entries
  {
    hide *;
    if entries.NoEntry? {
      NoLayouts(b, pos, entries, m);
    } else {
      var mid, after := EntryParts(b, pos, entries);
      FieldsOfStruct(entries);
      ReadsI16(b, pos, entries.k);
      ReadsLayoutMeant(b, mid, entries.v.fields, 0, NO_LAYOUT);
      var k, x := AsI16(entries.k), LayoutMeant(FieldsOf(entries.v), NO_LAYOUT);
      if k.Ok? && x.Ok? {
        ReadsLayoutsMeant(b, after, entries.rest, m[k.value := x.value]);
      }
      LayoutsFollow(b, pos, mid, after, pos + |WrittenEntries(entries)|, entries, m);
    }
  }

  lemma ReadsLayoutMap(b: Bytes, pos: nat, v: Value)
    requires WellFormed(v) && v.Map? && At(b, pos, Written(v))
    ensures Means(LayoutMapAt(b, pos), LayoutMapOf(v), pos + |Written(v)|)
  {
    hide At, Written, MapHeaderAt, WellFormed, EntriesWellFormed;
    var body := MapParts(b, pos, v);
    if StructMap(v) {
      NoEntryFits(v.entries, v.key, v.val);
      ReadsLayoutsMeant(b, body, v.entries, map[]);
    }
  }

  lemma BoolTakesNothing(v: Value)
    ensures v.Bool? ==> Written(v) == []
  {
  }

  lemma MapMeant(id: i16, v: Value, s: Schema)
    ensures v.Map? && id == 2 ==>
      SchemaFieldMeant(id, v, s) == match LayoutMapOf(v) case Err(e) => Err(e) case Ok(m) => Ok(s.(layouts := m))
  {
    hide LayoutMapMeant;
  }

  lemma ReadsSchemaField(b: Bytes, pos: nat, id: i16, v: Value, s: Schema)
    requires WellFormed(v) && At(b, pos, Written(v))
    requires SkipValueFrom(b, pos, TypeOfValue(v)) == Ok(pos + |Written(v)|)
    ensures Means(SchemaFieldAt(b, pos, FieldHeader(TypeOfValue(v), id), s), SchemaFieldMeant(id, v, s),
                  pos + |Written(v)|)
  {
    hide At, Written, I16At, I32At, AsI16, AsI32, LayoutMapAt, LayoutMapOf, SkipValueFrom, WellFormed;
    TypedInt(v);
    BoolTakesNothing(v);
    MapMeant(id, v, s);
    if v.Int? {
      ReadsI16(b, pos, v);
    } else if v.Map? {
      ReadsLayoutMap(b, pos, v);
    }
  }

  lemma {:induction false} ReadsSchemaMeant(b: Bytes, pos: nat, fields: Fs, last: i16, s: Schema)
    requires FieldsWellFormed(fields, last) && At(b, pos, WrittenFields(fields, last))
    ensures Means(SchemaFrom(b, pos, last, s), SchemaMeant(fields, s), pos + |WrittenFields(fields, last)|)
    decreases fields
  {
    hide At, Written, SkipValueFrom, FieldHeaderAt, SchemaFieldAt, SchemaFieldMeant, FieldsWellFormed, WellFormed,
      TypeOfValue;
    if fields.NoField? {
      ReadsStructEnd(b, pos, last);
    } else {
      var at, after := FieldParts(b, pos, fields, last);
      ReadsSchemaField(b, at, fields.id, fields.value, s);
      var meant := SchemaFieldMeant(fields.id, fields.value, s);
      if meant.Ok? {
        ReadsSchemaMeant(b, after, fields.more, fields.id, meant.value);
      }
    }
  }

  // Parsing what any struct is written as gives what the struct means, whatever follows it: fields in any order,
  // unknown ones anywhere, headers short or explicit.
  lemma ParsedIsMeant(fields: Fs, rest: Bytes)
    requires FieldsWellFormed(fields, 0)
    ensures Parsed(WrittenFields(fields, 0) + rest) == SchemaMeant(fields, NO_SCHEMA)
  {
    hide At, SchemaFrom, SchemaMeant, WrittenFields, FieldsWellFormed;
    AtFront(WrittenFields(fields, 0), rest);
    ReadsSchemaMeant(WrittenFields(fields, 0) + rest, 0, fields, 0, NO_SCHEMA);
  }

  lemma AtFront(s: Bytes, rest: Bytes)
    ensures At(s + rest, 0, s)
  {
    assert (s + rest)[0..|s|] == s;
  }

  // --- Unknown fields ------------------------------------------------------------------------------------------

  predicate KnownInField(id: i16, v: Value) {
    TypeOfValue(v) == TI16 && (id == 1 || id == 2)
  }

  predicate KnownInLayout(id: i16, v: Value) {
    || (id == 1 && TypeOfValue(v) == TI32) || (id == 2 && TypeOfValue(v) == TI16) || (id == 3 && v.Map?)
    || (id == 4 && v.Binary?)
  }

  predicate KnownInSchema(id: i16, v: Value) {
    || (id == 1 && v.Bool?) || (id == 2 && v.Map?) || (id == 3 && TypeOfValue(v) == TI16)
    || (id == 4 && TypeOfValue(v) == TI32)
  }

  // A field struct without its unknown fields, every header explicit.
  function BareField(fields: Fs): Fs {
    match fields
    case NoField => NoField
    case Field(id, _, v, more) =>
      if KnownInField(id, v) then Fs.Field(id, false, v, BareField(more)) else BareField(more)
  }

  function BareFields(entries: Entries): Entries {
    match entries
    case NoEntry => NoEntry
    case Entry(k, v, rest) => Entry(k, Struct(BareField(FieldsOf(v))), BareFields(rest))
  }

  function BareLayoutValue(v: Value): Value {
    if v.Map? then v.(entries := BareFields(v.entries)) else v
  }

  // A layout struct without unknown fields, at this depth or below.
  function BareLayout(fields: Fs): Fs {
    match fields
    case NoField => NoField
    case Field(id, _, v, more) =>
      if KnownInLayout(id, v) then Fs.Field(id, false, BareLayoutValue(v), BareLayout(more)) else BareLayout(more)
  }

  function BareLayouts(entries: Entries): Entries {
    match entries
    case NoEntry => NoEntry
    case Entry(k, v, rest) => Entry(k, Struct(BareLayout(FieldsOf(v))), BareLayouts(rest))
  }

  function BareSchemaValue(v: Value): Value {
    if v.Map? then v.(entries := BareLayouts(v.entries)) else v
  }

  function BareSchema(fields: Fs): Fs {
    match fields
    case NoField => NoField
    case Field(id, _, v, more) =>
      if KnownInSchema(id, v) then Fs.Field(id, false, BareSchemaValue(v), BareSchema(more)) else BareSchema(more)
  }

  lemma {:induction false} BareFieldMeant(fields: Fs, f: F)
    ensures FieldMeant(BareField(fields), f) == FieldMeant(fields, f)
    decreases fields
  {
    if fields.Field? {
      var x := AsI16(fields.value);
      if !KnownInField(fields.id, fields.value) {
        BareFieldMeant(fields.more, f);
      } else if x.Ok? {
        BareFieldMeant(fields.more, if fields.id == 1 then f.(layoutId := x.value) else f.(offset := x.value));
      }
    }
  }

  lemma {:induction false} BareFieldsMeant(entries: Entries, m: map<i16, F>)
    ensures FieldMapMeant(BareFields(entries), m) == FieldMapMeant(entries, m)
    ensures BareFields(entries).NoEntry? == entries.NoEntry?
    decreases entries
  {
    if entries.Entry? {
      hide FieldMeant, BareField;
      BareFieldMeant(FieldsOf(entries.v), NO_FIELD);
      var k, f := AsI16(entries.k), FieldMeant(FieldsOf(entries.v), NO_FIELD);
      if k.Ok? && f.Ok? {
        BareFieldsMeant(entries.rest, m[k.value := f.value]);
      }
    }
  }

  lemma BareLayoutValueMeant(id: i16, v: Value, l: Layout)
    ensures LayoutFieldMeant(id, BareLayoutValue(v), l) == LayoutFieldMeant(id, v, l)
    ensures !KnownInLayout(id, v) ==> LayoutFieldMeant(id, v, l) == Ok(l)
  {
    if v.Map? {
      BareFieldsMeant(v.entries, map[]);
      hide FieldMapMeant, BareFields;
    }
  }

  lemma {:induction false} BareLayoutMeant(fields: Fs, l: Layout)
    ensures LayoutMeant(BareLayout(fields), l) == LayoutMeant(fields, l)
    decreases fields
  {
    if fields.Field? {
      hide LayoutFieldMeant, BareLayoutValue, KnownInLayout;
      BareLayoutValueMeant(fields.id, fields.value, l);
      var x := LayoutFieldMeant(fields.id, fields.value, l);
      if x.Ok? {
        BareLayoutMeant(fields.more, x.value);
      }
    }
  }

  lemma {:induction false} BareLayoutsMeant(entries: Entries, m: map<i16, Layout>)
    ensures LayoutMapMeant(BareLayouts(entries), m) == LayoutMapMeant(entries, m)
    ensures BareLayouts(entries).NoEntry? == entries.NoEntry?
    decreases entries
  {
    if entries.Entry? {
      hide LayoutMeant, BareLayout;
      BareLayoutMeant(FieldsOf(entries.v), NO_LAYOUT);
      var k, l := AsI16(entries.k), LayoutMeant(FieldsOf(entries.v), NO_LAYOUT);
      if k.Ok? && l.Ok? {
        BareLayoutsMeant(entries.rest, m[k.value := l.value]);
      }
    }
  }

  lemma BareSchemaValueMeant(id: i16, v: Value, s: Schema)
    ensures SchemaFieldMeant(id, BareSchemaValue(v), s) == SchemaFieldMeant(id, v, s)
    ensures !KnownInSchema(id, v) ==> SchemaFieldMeant(id, v, s) == Ok(s)
  {
    if v.Map? {
      BareLayoutsMeant(v.entries, map[]);
      hide LayoutMapMeant, BareLayouts;
    }
  }

  lemma {:induction false} BareSchemaMeant(fields: Fs, s: Schema)
    ensures SchemaMeant(BareSchema(fields), s) == SchemaMeant(fields, s)
    decreases fields
  {
    if fields.Field? {
      hide SchemaFieldMeant, BareSchemaValue, KnownInSchema;
      BareSchemaValueMeant(fields.id, fields.value, s);
      var x := SchemaFieldMeant(fields.id, fields.value, s);
      if x.Ok? {
        BareSchemaMeant(fields.more, x.value);
      }
    }
  }

  // Two inputs that differ only in unknown fields, at any depth, and in how headers are written parse alike.
  lemma UnknownFieldsDoNotMatter(a: Fs, b: Fs, restA: Bytes, restB: Bytes)
    requires FieldsWellFormed(a, 0) && FieldsWellFormed(b, 0) && BareSchema(a) == BareSchema(b)
    ensures Parsed(WrittenFields(a, 0) + restA) == Parsed(WrittenFields(b, 0) + restB)
  {
    hide *;
    ParsedIsMeant(a, restA);
    ParsedIsMeant(b, restB);
    BareSchemaMeant(a, NO_SCHEMA);
    BareSchemaMeant(b, NO_SCHEMA);
  }
}
