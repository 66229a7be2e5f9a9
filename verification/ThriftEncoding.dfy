/** Writing the Thrift compact protocol, and what reading makes of it. */
module ThriftEncoding {
  import opened Common
  import opened Layouts
  import opened Thrift

  // `s` is what the input holds at `pos`.
  predicate At(b: Bytes, pos: nat, s: Bytes) {
    pos + |s| <= |b| && b[pos..pos + |s|] == s
  }

  lemma AtSplit(b: Bytes, pos: nat, s: Bytes, t: Bytes)
    requires At(b, pos, s + t)
    ensures At(b, pos, s) && At(b, pos + |s|, t)
  {
    var whole := b[pos..pos + |s + t|];
    assert whole[..|s|] == s && whole[|s|..] == t;
  }

  // --- Numbers -------------------------------------------------------------------------------------------------

  function Varint(v: nat): (s: Bytes)
    ensures s != []
  {
    if v < 128 then [v] else [v % 128 + 128] + Varint(v / 128)
  }

  function ZigZag(x: int): nat {
    if x >= 0 then 2 * x else -2 * x - 1
  }

  lemma Weight9()
    ensures Weight(9) == 0x8000_0000_0000_0000
  {
    assert Weight(3) == 0x20_0000;
    assert Weight(6) == 0x400_0000_0000;
  }

  lemma {:induction false} WeightGrows(k: nat)
    requires k <= 9
    ensures Weight(k) * 128 <= U64_MAX ==> k <= 8
  {
    if k == 9 {
      Weight9();
    }
  }

  lemma VarintSplits(v: nat, w: nat)
    requires v >= 128
    ensures (v / 128) * (128 * w) + (v % 128) * w == v * w && 128 * w <= v * w
    ensures 0 <= (v % 128) * w <= v * w && 0 <= (v / 128) * (128 * w) <= v * w
  {
    var q, r := v / 128, v % 128;
    assert v == 128 * q + r;
    assert q * (128 * w) == (128 * q) * w;
    assert (128 * q + r) * w == (128 * q) * w + r * w;
  }

  lemma VarintDone(b: Bytes, pos: nat, k: nat, acc: nat)
    requires k < 10 && pos < |b| && b[pos] < 128 && b[pos] * Weight(k) <= U64_MAX
    ensures VarintFrom(b, pos, k, acc) == Ok(Read(acc + b[pos] * Weight(k), pos + 1))
  {
    SmallModulo(b[pos] * Weight(k));
  }

  lemma VarintMore(b: Bytes, pos: nat, k: nat, acc: nat)
    requires k < 10 && pos < |b| && b[pos] >= 128 && (b[pos] % 128) * Weight(k) <= U64_MAX
    ensures VarintFrom(b, pos, k, acc) == VarintFrom(b, pos + 1, k + 1, acc + (b[pos] % 128) * Weight(k))
  {
    SmallModulo((b[pos] % 128) * Weight(k));
  }

  lemma SmallModulo(x: nat)
    requires x <= U64_MAX
    ensures x % (U64_MAX + 1) == x
  {
  }

  lemma {:induction false} VarintReads(b: Bytes, pos: nat, k: nat, acc: nat, v: nat)
    requires k <= 9 && v * Weight(k) <= U64_MAX && At(b, pos, Varint(v))
    ensures VarintFrom(b, pos, k, acc) == Ok(Read(acc + v * Weight(k), pos + |Varint(v)|))
    decreases v
  {
    hide VarintFrom, Weight, At;
    FirstByte(b, pos, Varint(v));
    if v < 128 {
      VarintDone(b, pos, k, acc);
    } else {
      VarintSplits(v, Weight(k));
      WeightStep(k);
      WeightGrows(k);
      assert b[pos] % 128 == v % 128;
      AtSplit(b, pos, [v % 128 + 128], Varint(v / 128));
      VarintMore(b, pos, k, acc);
      VarintReads(b, pos + 1, k + 1, acc + (v % 128) * Weight(k), v / 128);
    }
  }

  lemma WeightStep(k: nat)
    ensures Weight(k + 1) == 128 * Weight(k) && Weight(0) == 1
  {
  }

  lemma FirstByte(b: Bytes, pos: nat, s: Bytes)
    requires At(b, pos, s) && s != []
    ensures pos < |b| && b[pos] == s[0]
  {
    assert b[pos..pos + |s|][0] == b[pos];
  }

  lemma ReadsVarint(b: Bytes, pos: nat, v: nat)
    requires v <= U64_MAX && At(b, pos, Varint(v))
    ensures VarintAt(b, pos) == Ok(Read(v, pos + |Varint(v)|))
  {
    hide Varint, VarintFrom, At;
    WeightStep(0);
    VarintReads(b, pos, 0, 0, v);
  }

  lemma ZigZagBack(x: int)
    ensures UnZigZag(ZigZag(x)) == x
    ensures -0x8000_0000_0000_0000 <= x < 0x8000_0000_0000_0000 ==> ZigZag(x) <= U64_MAX
  {
  }

  lemma ReadsZigZag(b: Bytes, pos: nat, x: int)
    requires -0x8000_0000_0000_0000 <= x < 0x8000_0000_0000_0000 && At(b, pos, Varint(ZigZag(x)))
    ensures ZigZagAt(b, pos) == Ok(Read(x, pos + |Varint(ZigZag(x))|))
  {
    ZigZagBack(x);
    ReadsVarint(b, pos, ZigZag(x));
  }

  // Reading inverts writing, but not the other way round: the last of ten bytes may spell bits that are dropped.
  lemma LongVarintLosesBits()
    ensures var b: Bytes := [0x80, 0x80, 0x80, 0x80, 0x80, 0x80, 0x80, 0x80, 0x80, 0x02];
            VarintAt(b, 0) == Ok(Read(0, 10)) && Varint(0) != b
  {
    var b: Bytes := [0x80, 0x80, 0x80, 0x80, 0x80, 0x80, 0x80, 0x80, 0x80, 0x02];
    Weight9();
    assert VarintFrom(b, 9, 9, 0) == Ok(Read(0, 10));
    assert VarintFrom(b, 8, 8, 0) == VarintFrom(b, 9, 9, 0);
    assert VarintFrom(b, 7, 7, 0) == VarintFrom(b, 8, 8, 0);
    assert VarintFrom(b, 6, 6, 0) == VarintFrom(b, 7, 7, 0);
    assert VarintFrom(b, 5, 5, 0) == VarintFrom(b, 6, 6, 0);
    assert VarintFrom(b, 4, 4, 0) == VarintFrom(b, 5, 5, 0);
    assert VarintFrom(b, 3, 3, 0) == VarintFrom(b, 4, 4, 0);
    assert VarintFrom(b, 2, 2, 0) == VarintFrom(b, 3, 3, 0);
    assert VarintFrom(b, 1, 1, 0) == VarintFrom(b, 2, 2, 0);
  }

  // --- Values --------------------------------------------------------------------------------------------------

  datatype Value =
    | Bool(flag: bool)
    | Byte(v: byte)
    | Int(width: TType, raw: nat)
    | Double(eight: Bytes)
    | Binary(data: Bytes)
    | List(isSet: bool, elem: TType, items: Items)
    | Map(key: TType, val: TType, entries: Entries)
    | Struct(fields: Fields)

  datatype Items = NoItem | Item(head: Value, tail: Items)

  datatype Entries = NoEntry | Entry(k: Value, v: Value, rest: Entries)

  // A field's header may be written short when its id is close behind the one before it.
  datatype Fields = NoField | Field(id: i16, short: bool, value: Value, more: Fields)

  function TypeOfValue(v: Value): TType {
    match v
    case Bool(f) => if f then TTrue else TFalse
    case Byte(_) => TI8
    case Int(w, _) => w
    case Double(_) => TDouble
    case Binary(_) => TBinary
    case List(isSet, _, _) => if isSet then TSet else TList
    case Map(_, _, _) => TMap
    case Struct(_) => TStruct
  }

  predicate IsElement(v: Value, t: TType) {
    if v.Bool? then t == TTrue || t == TFalse else t == TypeOfValue(v)
  }

  function ItemCount(items: Items): nat {
    if items.NoItem? then 0 else 1 + ItemCount(items.tail)
  }

  function EntryCount(entries: Entries): nat {
    if entries.NoEntry? then 0 else 1 + EntryCount(entries.rest)
  }

  predicate WellFormed(v: Value) {
    match v
    case Bool(_) => true
    case Byte(_) => true
    case Int(w, raw) => (w == TI16 || w == TI32 || w == TI64) && raw <= U64_MAX
    case Double(eight) => |eight| == 8
    case Binary(data) => |data| <= U64_MAX
    case List(_, elem, items) => ItemCount(items) <= U32_MAX && ItemsWellFormed(items, elem)
    case Map(k, v, entries) => EntryCount(entries) <= U32_MAX && EntriesWellFormed(entries, k, v)
    case Struct(fields) => FieldsWellFormed(fields, 0)
  }

  predicate ItemsWellFormed(items: Items, t: TType) {
    items.Item? ==> WellFormed(items.head) && IsElement(items.head, t) && ItemsWellFormed(items.tail, t)
  }

  predicate EntriesWellFormed(entries: Entries, kt: TType, vt: TType) {
    entries.Entry? ==>
      && WellFormed(entries.k) && IsElement(entries.k, kt)
      && WellFormed(entries.v) && IsElement(entries.v, vt)
      && EntriesWellFormed(entries.rest, kt, vt)
  }

  predicate FieldsWellFormed(fields: Fields, last: i16) {
    fields.Field? ==>
      && (fields.short ==> 1 <= fields.id - last <= 15)
      && WellFormed(fields.value) && FieldsWellFormed(fields.more, fields.id)
  }

  function Header(id: i16, short: bool, t: TType, last: i16): Bytes {
    if short && 1 <= id - last <= 15 then [16 * (id - last) + CodeOf(t)] else [CodeOf(t)] + Varint(ZigZag(id))
  }

  function ListHead(t: TType, n: nat): Bytes {
    if n < 15 then [16 * n + CodeOf(t)] else [240 + CodeOf(t)] + Varint(n)
  }

  function MapHead(k: TType, v: TType, n: nat): Bytes {
    if n == 0 then Varint(0) else Varint(n) + [16 * CodeOf(k) + CodeOf(v)]
  }

  function Written(v: Value): Bytes
    decreases v, 0
  {
    match v
    case Bool(_) => []
    case Byte(x) => [x]
    case Int(_, raw) => Varint(raw)
    case Double(eight) => eight
    case Binary(data) => Varint(|data|) + data
    case List(_, elem, items) => ListHead(elem, ItemCount(items)) + WrittenItems(items)
    case Map(k, v, entries) => MapHead(k, v, EntryCount(entries)) + WrittenEntries(entries)
    case Struct(fields) => WrittenFields(fields, 0)
  }

  function WrittenElement(v: Value): Bytes
    decreases v, 1
  {
    if v.Bool? then [if v.flag then 1 else 2] else Written(v)
  }

  function WrittenItems(items: Items): Bytes
    decreases items, 0
  {
    if items.NoItem? then [] else WrittenElement(items.head) + WrittenItems(items.tail)
  }

  function WrittenEntries(entries: Entries): Bytes
    decreases entries, 0
  {
    if entries.NoEntry? then []
    else WrittenElement(entries.k) + (WrittenElement(entries.v) + WrittenEntries(entries.rest))
  }

  function WrittenFields(fields: Fields, last: i16): Bytes
    decreases fields, 0
  {
    if fields.NoField? then [0]
    else Header(fields.id, fields.short, TypeOfValue(fields.value), last)
         + (Written(fields.value) + WrittenFields(fields.more, fields.id))
  }

  // --- Reading headers back ------------------------------------------------------------------------------------

  lemma ReadsHeader(b: Bytes, pos: nat, id: i16, short: bool, t: TType, last: i16)
    requires At(b, pos, Header(id, short, t, last)) && t != TStop && (short ==> 1 <= id - last <= 15)
    ensures FieldHeaderAt(b, pos, last) == Ok(Read(Some(FieldHeader(t, id)), pos + |Header(id, short, t, last)|))
  {
    FirstByte(b, pos, Header(id, short, t, last));
    CodeFits(t, if short then id - last else 0);
    if !short {
      AtSplit(b, pos, [CodeOf(t)], Varint(ZigZag(id)));
      ReadsZigZag(b, pos + 1, id);
    }
  }

  lemma CodeFits(t: TType, high: nat)
    ensures TypeOf(16 * high + CodeOf(t)) == Ok(t) && (16 * high + CodeOf(t)) / 16 == high
    ensures CodeOf(t) == 0 <==> t == TStop
  {
  }

  lemma ReadsListHead(b: Bytes, pos: nat, t: TType, n: nat)
    requires At(b, pos, ListHead(t, n)) && n <= U32_MAX
    ensures ListHeaderAt(b, pos) == Ok(Read(ListHeader(t, n), pos + |ListHead(t, n)|))
  {
    hide VarintAt, Varint, CodeOf, TypeOf, ZigZag;
    FirstByte(b, pos, ListHead(t, n));
    CodeFits(t, if n < 15 then n else 15);
    if n >= 15 {
      AtSplit(b, pos, [240 + CodeOf(t)], Varint(n));
      ReadsVarint(b, pos + 1, n);
    }
  }

  lemma ReadsMapHead(b: Bytes, pos: nat, k: TType, v: TType, n: nat)
    requires At(b, pos, MapHead(k, v, n)) && n <= U32_MAX
    ensures MapHeaderAt(b, pos)
            == Ok(Read(if n == 0 then MapHeader(TStop, TStop, 0) else MapHeader(k, v, n), pos + |MapHead(k, v, n)|))
  {
    hide VarintAt, Varint, CodeOf, TypeOf, ZigZag;
    if n == 0 {
      ReadsVarint(b, pos, 0);
    } else {
      AtSplit(b, pos, Varint(n), [16 * CodeOf(k) + CodeOf(v)]);
      ReadsVarint(b, pos, n);
      FirstByte(b, pos + |Varint(n)|, [16 * CodeOf(k) + CodeOf(v)]);
      CodeFits(v, CodeOf(k));
      CodeFits(k, 0);
    }
  }

  lemma ValueType(v: Value)
    requires WellFormed(v)
    ensures TypeOfValue(v) != TStop && (!v.Bool? ==> TypeOfValue(v) != TTrue && TypeOfValue(v) != TFalse)
  {
  }

  lemma ReadsStructEnd(b: Bytes, pos: nat, last: i16)
    requires At(b, pos, [0])
    ensures FieldHeaderAt(b, pos, last) == Ok(Read(None, pos + 1))
  {
    FirstByte(b, pos, [0]);
  }

  // --- Skipping consumes exactly one value ---------------------------------------------------------------------

  lemma {:induction false} SkipsValue(b: Bytes, pos: nat, v: Value)
    requires WellFormed(v) && At(b, pos, Written(v))
    ensures SkipValueFrom(b, pos, TypeOfValue(v)) == Ok(pos + |Written(v)|)
    decreases v, 0
  {
    hide ListHeaderAt, MapHeaderAt, VarintAt, Varint, ListHead, MapHead, SkipElementsFrom, SkipEntriesFrom,
      SkipFieldsFrom, WrittenItems, WrittenFields, ItemsWellFormed, EntriesWellFormed, FieldsWellFormed, ItemCount;
    match v {
      case Bool(_) =>
      case Byte(_) =>
      case Int(_, raw) => ReadsVarint(b, pos, raw);
      case Double(_) =>
      case Binary(data) =>
        AtSplit(b, pos, Varint(|data|), data);
        ReadsVarint(b, pos, |data|);
      case List(_, elem, items) =>
        hide At;
        var head := ListHead(elem, ItemCount(items));
        AtSplit(b, pos, head, WrittenItems(items));
        ReadsListHead(b, pos, elem, ItemCount(items));
        SkipsItems(b, pos + |head|, items, elem);
      case Map(kt, vt, entries) =>
        hide At;
        var head := MapHead(kt, vt, EntryCount(entries));
        AtSplit(b, pos, head, WrittenEntries(entries));
        ReadsMapHead(b, pos, kt, vt, EntryCount(entries));
        if entries.Entry? {
          SkipsEntries(b, pos + |head|, entries, kt, vt);
        } else {
          SkipsNothing(b, pos + |head|, TStop, TStop);
        }
      case Struct(fields) => SkipsFields(b, pos, fields, 0);
    }
  }

  lemma SkipsNothing(b: Bytes, pos: nat, kt: TType, vt: TType)
    ensures SkipEntriesFrom(b, pos, kt, vt, 0) == Ok(pos)
  {
  }

  lemma {:induction false} SkipsElement(b: Bytes, pos: nat, v: Value, t: TType)
    requires WellFormed(v) && IsElement(v, t) && At(b, pos, WrittenElement(v))
    ensures SkipElementFrom(b, pos, t) == Ok(pos + |WrittenElement(v)|)
    decreases v, 1
  {
    hide Written, SkipValueFrom, WellFormed;
    ValueType(v);
    if !v.Bool? {
      SkipsValue(b, pos, v);
    }
  }

  lemma {:induction false} SkipsItems(b: Bytes, pos: nat, items: Items, t: TType)
    requires ItemsWellFormed(items, t) && At(b, pos, WrittenItems(items))
    ensures SkipElementsFrom(b, pos, t, ItemCount(items)) == Ok(pos + |WrittenItems(items)|)
    decreases items, 0
  {
    hide At, Written, WrittenElement, SkipElementFrom, IsElement, WellFormed;
    if items.Item? {
      var head := WrittenElement(items.head);
      AtSplit(b, pos, head, WrittenItems(items.tail));
      SkipsElement(b, pos, items.head, t);
      SkipsItems(b, pos + |head|, items.tail, t);
    }
  }

  lemma {:induction false} SkipsEntries(b: Bytes, pos: nat, entries: Entries, kt: TType, vt: TType)
    requires EntriesWellFormed(entries, kt, vt) && At(b, pos, WrittenEntries(entries))
    ensures SkipEntriesFrom(b, pos, kt, vt, EntryCount(entries)) == Ok(pos + |WrittenEntries(entries)|)
    decreases entries, 0
  {
    hide *;
    if entries.NoEntry? {
      NoEntries(entries);
      SkipsNothing(b, pos, kt, vt);
    } else {
      var k, v := WrittenElement(entries.k), WrittenElement(entries.v);
      FirstEntry(entries, kt, vt);
      AtSplit(b, pos, k, v + WrittenEntries(entries.rest));
      AtSplit(b, pos + |k|, v, WrittenEntries(entries.rest));
      SkipsElement(b, pos, entries.k, kt);
      SkipsElement(b, pos + |k|, entries.v, vt);
      SkipsEntries(b, pos + |k| + |v|, entries.rest, kt, vt);
      SkipsOneMore(b, pos, kt, vt, EntryCount(entries), pos + |k|, pos + |k| + |v|);
    }
  }

  lemma NoEntries(entries: Entries)
    requires entries.NoEntry?
    ensures WrittenEntries(entries) == [] && EntryCount(entries) == 0
  {
  }

  lemma FirstEntry(entries: Entries, kt: TType, vt: TType)
    requires EntriesWellFormed(entries, kt, vt) && entries.Entry?
    ensures WellFormed(entries.k) && IsElement(entries.k, kt) && WellFormed(entries.v) && IsElement(entries.v, vt)
    ensures EntriesWellFormed(entries.rest, kt, vt) && EntryCount(entries) == 1 + EntryCount(entries.rest)
    ensures WrittenEntries(entries)
            == WrittenElement(entries.k) + (WrittenElement(entries.v) + WrittenEntries(entries.rest))
  {
    hide WrittenElement, IsElement, WellFormed;
  }

  lemma SkipsOneMore(b: Bytes, pos: nat, kt: TType, vt: TType, n: nat, mid: nat, next: nat)
    requires n > 0 && SkipElementFrom(b, pos, kt) == Ok(mid) && SkipElementFrom(b, mid, vt) == Ok(next)
    ensures SkipEntriesFrom(b, pos, kt, vt, n) == SkipEntriesFrom(b, next, kt, vt, n - 1)
  {
    hide SkipElementFrom;
  }

  lemma {:induction false} SkipsFields(b: Bytes, pos: nat, fields: Fields, last: i16)
    requires FieldsWellFormed(fields, last) && At(b, pos, WrittenFields(fields, last))
    ensures SkipFieldsFrom(b, pos, last) == Ok(pos + |WrittenFields(fields, last)|)
    decreases fields, 0
  {
    hide At, Written, SkipValueFrom, FieldHeaderAt, Header, WellFormed, TypeOfValue;
    if fields.Field? {
      var t := TypeOfValue(fields.value);
      var head := Header(fields.id, fields.short, t, last);
      var value := Written(fields.value);
      AtSplit(b, pos, head, value + WrittenFields(fields.more, fields.id));
      AtSplit(b, pos + |head|, value, WrittenFields(fields.more, fields.id));
      ValueType(fields.value);
      ReadsHeader(b, pos, fields.id, fields.short, t, last);
      SkipsValue(b, pos + |head|, fields.value);
      SkipsFields(b, pos + |head| + |value|, fields.more, fields.id);
    } else {
      ReadsStructEnd(b, pos, last);
    }
  }
}
