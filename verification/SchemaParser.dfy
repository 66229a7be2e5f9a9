/** Parsing a Frozen2 schema out of its compact Thrift form. */
module SchemaParser {
  import opened Common
  import opened Layouts
  import opened Thrift

  const NO_FIELD: Field := Field(0, 0)
  const NO_LAYOUT: Layout := Layout(0, 0, map[], [])
  const NO_SCHEMA: Schema := Schema(0, false, map[], 0)

  // --- What is read, as a function of the input ----------------------------------------------------------------

  function FieldFrom(b: Bytes, pos: nat, last: i16, f: Field): Step<Field>
    decreases Left(b, pos)
  {
    HeadersAdvance(b, pos, last);
    match FieldHeaderAt(b, pos, last)
    case Err(e) => Err(e)
    case Ok(h) =>
      if h.value.None? then Ok(Read(f, h.next))
      else
        var fh := h.value.value;
        if fh.ttype == TI16 && (fh.id == 1 || fh.id == 2) then
          I16Advances(b, h.next);
          match I16At(b, h.next)
          case Err(e) => Err(e)
          case Ok(v) =>
            FieldFrom(b, v.next, fh.id, if fh.id == 1 then f.(layoutId := v.value) else f.(offset := v.value))
        else match SkipValueFrom(b, h.next, fh.ttype)
          case Err(e) => Err(e)
          case Ok(next) => FieldFrom(b, next, fh.id, f)
  }

  lemma I16Advances(b: Bytes, pos: nat)
    ensures I16At(b, pos).Ok? ==> pos < I16At(b, pos).value.next <= |b|
    ensures I32At(b, pos).Ok? ==> pos < I32At(b, pos).value.next <= |b|
    ensures BinaryAt(b, pos).Ok? ==> pos < BinaryAt(b, pos).value.next <= |b|
  {
    HeadersAdvance(b, pos, 0);
  }

  function FieldsFrom(b: Bytes, pos: nat, n: nat, m: map<i16, Field>): Step<map<i16, Field>>
    decreases n
  {
    if n == 0 then Ok(Read(m, pos))
    else match I16At(b, pos)
      case Err(e) => Err(e)
      case Ok(k) =>
        match FieldFrom(b, k.next, 0, NO_FIELD)
        case Err(e) => Err(e)
        case Ok(f) => FieldsFrom(b, f.next, n - 1, m[k.value := f.value])
  }

  function FieldMapAt(b: Bytes, pos: nat): Step<map<i16, Field>> {
    match MapHeaderAt(b, pos)
    case Err(e) => Err(e)
    case Ok(h) =>
      if h.value.count > 0 && (h.value.key != TI16 || h.value.val != TStruct) then Err(UnexpectedMapTypes)
      else FieldsFrom(b, h.next, h.value.count, map[])
  }

  lemma {:induction false} FieldAdvances(b: Bytes, pos: nat, last: i16, f: Field)
    requires FieldFrom(b, pos, last, f).Ok?
    ensures pos < FieldFrom(b, pos, last, f).value.next
    decreases Left(b, pos)
  {
    HeadersAdvance(b, pos, last);
    var h := FieldHeaderAt(b, pos, last).value;
    if h.value.Some? {
      var fh := h.value.value;
      if fh.ttype == TI16 && (fh.id == 1 || fh.id == 2) {
        I16Advances(b, h.next);
        var v := I16At(b, h.next).value;
        FieldAdvances(b, v.next, fh.id, if fh.id == 1 then f.(layoutId := v.value) else f.(offset := v.value));
      } else {
        FieldAdvances(b, SkipValueFrom(b, h.next, fh.ttype).value, fh.id, f);
      }
    }
  }

  lemma {:induction false} FieldsAdvance(b: Bytes, pos: nat, n: nat, m: map<i16, Field>)
    requires FieldsFrom(b, pos, n, m).Ok?
    ensures pos <= FieldsFrom(b, pos, n, m).value.next
    decreases n
  {
    hide I16At, FieldFrom, FieldHeaderAt, SkipValueFrom;
    if n > 0 {
      I16Advances(b, pos);
      var k := I16At(b, pos).value;
      FieldAdvances(b, k.next, 0, NO_FIELD);
      var f := FieldFrom(b, k.next, 0, NO_FIELD).value;
      FieldsAdvance(b, f.next, n - 1, m[k.value := f.value]);
    }
  }

  lemma FieldMapAdvances(b: Bytes, pos: nat)
    ensures FieldMapAt(b, pos).Ok? ==> pos < FieldMapAt(b, pos).value.next
  {
    HeadersAdvance(b, pos, 0);
    if FieldMapAt(b, pos).Ok? {
      var h := MapHeaderAt(b, pos).value;
      FieldsAdvance(b, h.next, h.value.count, map[]);
    }
  }

  // A layout's scalar fields, and where the next field is.
  function LayoutFieldAt(b: Bytes, pos: nat, fh: FieldHeader, l: Layout): Step<Layout> {
    if fh.id == 1 && fh.ttype == TI32 then
      match I32At(b, pos)
      case Err(e) => Err(e)
      case Ok(v) => if v.value < 0 then Err(NegativeValue) else Ok(Read(l.(size := v.value), v.next))
    else if fh.id == 2 && fh.ttype == TI16 then
      match I16At(b, pos)
      case Err(e) => Err(e)
      case Ok(v) => if v.value < 0 then Err(NegativeValue) else Ok(Read(l.(bits := v.value), v.next))
    else if fh.id == 3 && fh.ttype == TMap then
      match FieldMapAt(b, pos)
      case Err(e) => Err(e)
      case Ok(m) => Ok(Read(l.(fields := m.value), m.next))
    else if fh.id == 4 && fh.ttype == TBinary then
      match BinaryAt(b, pos)
      case Err(e) => Err(e)
      case Ok(s) => Ok(Read(l.(typeName := s.value), s.next))
    else
      match SkipValueFrom(b, pos, fh.ttype)
      case Err(e) => Err(e)
      case Ok(next) => Ok(Read(l, next))
  }

  lemma LayoutFieldAdvances(b: Bytes, pos: nat, fh: FieldHeader, l: Layout)
    ensures LayoutFieldAt(b, pos, fh, l).Ok? ==> pos <= LayoutFieldAt(b, pos, fh, l).value.next
  {
    I16Advances(b, pos);
    FieldMapAdvances(b, pos);
  }

  function LayoutFrom(b: Bytes, pos: nat, last: i16, l: Layout): Step<Layout>
    decreases Left(b, pos)
  {
    HeadersAdvance(b, pos, last);
    match FieldHeaderAt(b, pos, last)
    case Err(e) => Err(e)
    case Ok(h) =>
      if h.value.None? then Ok(Read(l, h.next))
      else
        LayoutFieldAdvances(b, h.next, h.value.value, l);
        match LayoutFieldAt(b, h.next, h.value.value, l)
        case Err(e) => Err(e)
        case Ok(r) => LayoutFrom(b, r.next, h.value.value.id, r.value)
  }

  function LayoutsFrom(b: Bytes, pos: nat, n: nat, m: map<i16, Layout>): Step<map<i16, Layout>>
    decreases n
  {
    if n == 0 then Ok(Read(m, pos))
    else match I16At(b, pos)
      case Err(e) => Err(e)
      case Ok(k) =>
        match LayoutFrom(b, k.next, 0, NO_LAYOUT)
        case Err(e) => Err(e)
        case Ok(l) => LayoutsFrom(b, l.next, n - 1, m[k.value := l.value])
  }

  function LayoutMapAt(b: Bytes, pos: nat): Step<map<i16, Layout>> {
    match MapHeaderAt(b, pos)
    case Err(e) => Err(e)
    case Ok(h) =>
      if h.value.count > 0 && (h.value.key != TI16 || h.value.val != TStruct) then Err(UnexpectedMapTypes)
      else LayoutsFrom(b, h.next, h.value.count, map[])
  }

  lemma {:induction false} LayoutAdvances(b: Bytes, pos: nat, last: i16, l: Layout)
    requires LayoutFrom(b, pos, last, l).Ok?
    ensures pos < LayoutFrom(b, pos, last, l).value.next
    decreases Left(b, pos)
  {
    HeadersAdvance(b, pos, last);
    var h := FieldHeaderAt(b, pos, last).value;
    if h.value.Some? {
      LayoutFieldAdvances(b, h.next, h.value.value, l);
      var r := LayoutFieldAt(b, h.next, h.value.value, l).value;
      LayoutAdvances(b, r.next, h.value.value.id, r.value);
    }
  }

  lemma {:induction false} LayoutsAdvance(b: Bytes, pos: nat, n: nat, m: map<i16, Layout>)
    requires LayoutsFrom(b, pos, n, m).Ok?
    ensures pos <= LayoutsFrom(b, pos, n, m).value.next
    decreases n
  {
    hide I16At, LayoutFrom, FieldHeaderAt, LayoutFieldAt;
    if n > 0 {
      I16Advances(b, pos);
      var k := I16At(b, pos).value;
      LayoutAdvances(b, k.next, 0, NO_LAYOUT);
      var l := LayoutFrom(b, k.next, 0, NO_LAYOUT).value;
      LayoutsAdvance(b, l.next, n - 1, m[k.value := l.value]);
    }
  }

  lemma LayoutMapAdvances(b: Bytes, pos: nat)
    ensures LayoutMapAt(b, pos).Ok? ==> pos < LayoutMapAt(b, pos).value.next
  {
    HeadersAdvance(b, pos, 0);
    if LayoutMapAt(b, pos).Ok? {
      var h := MapHeaderAt(b, pos).value;
      LayoutsAdvance(b, h.next, h.value.count, map[]);
    }
  }

  function SchemaFieldAt(b: Bytes, pos: nat, fh: FieldHeader, s: Schema): Step<Schema> {
    if fh.id == 1 && (fh.ttype == TTrue || fh.ttype == TFalse) then
      Ok(Read(s.(relaxTypeChecks := fh.ttype == TTrue), pos))
    else if fh.id == 2 && fh.ttype == TMap then
      match LayoutMapAt(b, pos)
      case Err(e) => Err(e)
      case Ok(m) => Ok(Read(s.(layouts := m.value), m.next))
    else if fh.id == 3 && fh.ttype == TI16 then
      match I16At(b, pos)
      case Err(e) => Err(e)
      case Ok(v) => Ok(Read(s.(rootLayout := v.value), v.next))
    else if fh.id == 4 && fh.ttype == TI32 then
      match I32At(b, pos)
      case Err(e) => Err(e)
      case Ok(v) => Ok(Read(s.(fileVersion := v.value), v.next))
    else
      match SkipValueFrom(b, pos, fh.ttype)
      case Err(e) => Err(e)
      case Ok(next) => Ok(Read(s, next))
  }

  lemma SchemaFieldAdvances(b: Bytes, pos: nat, fh: FieldHeader, s: Schema)
    ensures SchemaFieldAt(b, pos, fh, s).Ok? ==> pos <= SchemaFieldAt(b, pos, fh, s).value.next
  {
    I16Advances(b, pos);
    LayoutMapAdvances(b, pos);
  }

  function SchemaFrom(b: Bytes, pos: nat, last: i16, s: Schema): Step<Schema>
    decreases Left(b, pos)
  {
    HeadersAdvance(b, pos, last);
    match FieldHeaderAt(b, pos, last)
    case Err(e) => Err(e)
    case Ok(h) =>
      if h.value.None? then Ok(Read(s, h.next))
      else
        SchemaFieldAdvances(b, h.next, h.value.value, s);
        match SchemaFieldAt(b, h.next, h.value.value, s)
        case Err(e) => Err(e)
        case Ok(r) => SchemaFrom(b, r.next, h.value.value.id, r.value)
  }

  // A schema is read from the front of its section; what follows it is not looked at.
  function Parsed(b: Bytes): Result<Schema, ThriftError> {
    match SchemaFrom(b, 0, 0, NO_SCHEMA)
    case Err(e) => Err(e)
    case Ok(r) => Ok(r.value)
  }

  // --- Reading it ----------------------------------------------------------------------------------------------

  method ReadField(r: ThriftReader) returns (res: Result<Field, ThriftError>)
    modifies r
    ensures r.Follows(res, FieldFrom(r.bytes, old(r.pos), 0, NO_FIELD))
    ensures res.Ok? ==> r.lastFieldId == old(r.lastFieldId) && r.stack == old(r.stack)
  {
    hide FieldHeaderAt, I16At, SkipValueFrom;
    r.ReadStructBegin();
    var f := NO_FIELD;
    while true
      invariant FieldFrom(r.bytes, old(r.pos), 0, NO_FIELD) == FieldFrom(r.bytes, r.pos, r.lastFieldId, f)
      invariant r.stack == old(r.stack) + [old(r.lastFieldId)]
      decreases Left(r.bytes, r.pos)
    {
      HeadersAdvance(r.bytes, r.pos, r.lastFieldId);
      var h := r.ReadFieldHeader();
      if h.Err? {
        return Err(h.error);
      }
      if h.value.None? {
        r.ReadStructEnd();
        return Ok(f);
      }
      var fh := h.value.value;
      I16Advances(r.bytes, r.pos);
      if fh.ttype == TI16 && (fh.id == 1 || fh.id == 2) {
        var v := r.ReadI16();
        if v.Err? {
          return Err(v.error);
        }
        f := if fh.id == 1 then f.(layoutId := v.value) else f.(offset := v.value);
      } else {
        var skipped := r.SkipValue(fh.ttype);
        if skipped.Err? {
          return Err(skipped.error);
        }
      }
    }
  }

  method ReadFieldMap(r: ThriftReader) returns (res: Result<map<i16, Field>, ThriftError>)
    modifies r
    ensures r.Follows(res, FieldMapAt(r.bytes, old(r.pos)))
    ensures res.Ok? ==> r.lastFieldId == old(r.lastFieldId) && r.stack == old(r.stack)
  {
    hide MapHeaderAt, I16At, FieldFrom;
    var h := r.ReadMapHeader();
    if h.Err? {
      return Err(h.error);
    }
    if h.value.count > 0 && (h.value.key != TI16 || h.value.val != TStruct) {
      return Err(UnexpectedMapTypes);
    }
    var out: map<i16, Field> := map[];
    ghost var start := r.pos;
    for i := 0 to h.value.count
      invariant FieldsFrom(r.bytes, start, h.value.count, map[]) == FieldsFrom(r.bytes, r.pos, h.value.count - i, out)
      invariant r.lastFieldId == old(r.lastFieldId) && r.stack == old(r.stack)
    {
      var k := r.ReadI16();
      if k.Err? {
        return Err(k.error);
      }
      var f := ReadField(r);
      if f.Err? {
        return Err(f.error);
      }
      out := out[k.value := f.value];
    }
    return Ok(out);
  }

  method ReadLayoutField(r: ThriftReader, fh: FieldHeader, l: Layout) returns (res: Result<Layout, ThriftError>)
    modifies r
    ensures r.Follows(res, LayoutFieldAt(r.bytes, old(r.pos), fh, l))
    ensures res.Ok? ==> r.lastFieldId == old(r.lastFieldId) && r.stack == old(r.stack)
  {
    hide I16At, I32At, FieldMapAt, BinaryAt, SkipValueFrom;
    if fh.id == 1 && fh.ttype == TI32 {
      var v := r.ReadI32();
      if v.Err? {
        return Err(v.error);
      }
      return if v.value < 0 then Err(NegativeValue) else Ok(l.(size := v.value));
    } else if fh.id == 2 && fh.ttype == TI16 {
      var v := r.ReadI16();
      if v.Err? {
        return Err(v.error);
      }
      return if v.value < 0 then Err(NegativeValue) else Ok(l.(bits := v.value));
    } else if fh.id == 3 && fh.ttype == TMap {
      var m := ReadFieldMap(r);
      if m.Err? {
        return Err(m.error);
      }
      return Ok(l.(fields := m.value));
    } else if fh.id == 4 && fh.ttype == TBinary {
      var name := r.ReadBinary();
      if name.Err? {
        return Err(name.error);
      }
      return Ok(l.(typeName := name.value));
    } else {
      var skipped := r.SkipValue(fh.ttype);
      if skipped.Err? {
        return Err(skipped.error);
      }
      return Ok(l);
    }
  }

  method ReadLayout(r: ThriftReader) returns (res: Result<Layout, ThriftError>)
    modifies r
    ensures r.Follows(res, LayoutFrom(r.bytes, old(r.pos), 0, NO_LAYOUT))
    ensures res.Ok? ==> r.lastFieldId == old(r.lastFieldId) && r.stack == old(r.stack)
  {
    hide FieldHeaderAt, LayoutFieldAt;
    r.ReadStructBegin();
    var l := NO_LAYOUT;
    while true
      invariant LayoutFrom(r.bytes, old(r.pos), 0, NO_LAYOUT) == LayoutFrom(r.bytes, r.pos, r.lastFieldId, l)
      invariant r.stack == old(r.stack) + [old(r.lastFieldId)]
      decreases Left(r.bytes, r.pos)
    {
      HeadersAdvance(r.bytes, r.pos, r.lastFieldId);
      var h := r.ReadFieldHeader();
      if h.Err? {
        return Err(h.error);
      }
      if h.value.None? {
        r.ReadStructEnd();
        return Ok(l);
      }
      LayoutFieldAdvances(r.bytes, r.pos, h.value.value, l);
      var read := ReadLayoutField(r, h.value.value, l);
      if read.Err? {
        return Err(read.error);
      }
      l := read.value;
    }
  }

  method ReadLayoutMap(r: ThriftReader) returns (res: Result<map<i16, Layout>, ThriftError>)
    modifies r
    ensures r.Follows(res, LayoutMapAt(r.bytes, old(r.pos)))
    ensures res.Ok? ==> r.lastFieldId == old(r.lastFieldId) && r.stack == old(r.stack)
  {
    hide MapHeaderAt, I16At, LayoutFrom;
    var h := r.ReadMapHeader();
    if h.Err? {
      return Err(h.error);
    }
    if h.value.count > 0 && (h.value.key != TI16 || h.value.val != TStruct) {
      return Err(UnexpectedMapTypes);
    }
    var out: map<i16, Layout> := map[];
    ghost var start := r.pos;
    for i := 0 to h.value.count
      invariant LayoutsFrom(r.bytes, start, h.value.count, map[]) == LayoutsFrom(r.bytes, r.pos, h.value.count - i, out)
      invariant r.lastFieldId == old(r.lastFieldId) && r.stack == old(r.stack)
    {
      var k := r.ReadI16();
      if k.Err? {
        return Err(k.error);
      }
      var l := ReadLayout(r);
      if l.Err? {
        return Err(l.error);
      }
      out := out[k.value := l.value];
    }
    return Ok(out);
  }

  method ReadSchemaField(r: ThriftReader, fh: FieldHeader, s: Schema) returns (res: Result<Schema, ThriftError>)
    modifies r
    ensures r.Follows(res, SchemaFieldAt(r.bytes, old(r.pos), fh, s))
    ensures res.Ok? ==> r.lastFieldId == old(r.lastFieldId) && r.stack == old(r.stack)
  {
    hide I16At, I32At, LayoutMapAt, SkipValueFrom;
    if fh.id == 1 && (fh.ttype == TTrue || fh.ttype == TFalse) {
      return Ok(s.(relaxTypeChecks := fh.ttype == TTrue));
    } else if fh.id == 2 && fh.ttype == TMap {
      var m := ReadLayoutMap(r);
      if m.Err? {
        return Err(m.error);
      }
      return Ok(s.(layouts := m.value));
    } else if fh.id == 3 && fh.ttype == TI16 {
      var v := r.ReadI16();
      if v.Err? {
        return Err(v.error);
      }
      return Ok(s.(rootLayout := v.value));
    } else if fh.id == 4 && fh.ttype == TI32 {
      var v := r.ReadI32();
      if v.Err? {
        return Err(v.error);
      }
      return Ok(s.(fileVersion := v.value));
    } else {
      var skipped := r.SkipValue(fh.ttype);
      if skipped.Err? {
        return Err(skipped.error);
      }
      return Ok(s);
    }
  }

  method Parse(bytes: Bytes) returns (res: Result<Schema, ThriftError>)
    ensures res == Parsed(bytes)
  {
    hide FieldHeaderAt, SchemaFieldAt;
    var r := new ThriftReader(bytes);
    r.ReadStructBegin();
    var s := NO_SCHEMA;
    while true
      invariant r.bytes == bytes && SchemaFrom(bytes, 0, 0, NO_SCHEMA) == SchemaFrom(bytes, r.pos, r.lastFieldId, s)
      decreases Left(bytes, r.pos)
    {
      HeadersAdvance(bytes, r.pos, r.lastFieldId);
      var h := r.ReadFieldHeader();
      if h.Err? {
        return Err(h.error);
      }
      if h.value.None? {
        r.ReadStructEnd();
        return Ok(s);
      }
      SchemaFieldAdvances(bytes, r.pos, h.value.value, s);
      var read := ReadSchemaField(r, h.value.value, s);
      if read.Err? {
        return Err(read.error);
      }
      s := read.value;
    }
  }
}
