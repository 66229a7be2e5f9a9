/** Reading values out of a Frozen2 blob under a schema. */
module Frozen {
  import opened Common
  import opened LittleEndian
  import opened BitBuf
  import opened Layouts

  datatype FrozenError =
    | MissingLayout(id: i16)
    | MissingField(id: i16)
    | BadBits(error: BitError)
    | DistanceOverflow
    | SliceOverflow
    | SlicePastEnd
    | ElementOverflow
    | NotAList
    | CapExceeded(count: nat)
    | ValueTooWide
    | TableTooLarge

  // --- Positions -----------------------------------------------------------------------------------------------

  // A byte anchor and bits counted from it; the bits may exceed 7.
  datatype Pos = Pos(byte: nat, bit: nat)

  const ROOT: Pos := Pos(0, 0)

  function Add64(a: nat, b: nat): nat {
    (a + b) % (U64_MAX + 1)
  }

  function AbsoluteBit(p: Pos): nat {
    Min(U64_MAX, Min(U64_MAX, p.byte * 8) + p.bit)
  }

  function Child(p: Pos, f: Field): Pos {
    if f.offset < 0 then Pos(p.byte, Add64(p.bit, -(f.offset as int))) else Pos(Add64(p.byte, f.offset), p.bit)
  }

  function LayoutOf(schema: Schema, id: i16): Result<Layout, FrozenError> {
    if id in schema.layouts then Ok(schema.layouts[id]) else Err(MissingLayout(id))
  }

  function ReadIntegral(blob: Bytes, p: Pos, bits: nat): Result<nat, FrozenError> {
    match ReadBits(blob, AbsoluteBit(p), bits)
    case Ok(v) => Ok(v)
    case Err(e) => Err(BadBits(e))
  }

  // --- Kinds ---------------------------------------------------------------------------------------------------

  datatype LayoutKind =
    | IntegralKind(bits: nat)
    | StructKind
    | StringKind
    | ArrayKind(item: i16)
    | OptionalKind(value: Option<i16>)
    | EmptyKind

  function KindOf(schema: Schema, l: Layout): Result<LayoutKind, FrozenError> {
    if l.fields == map[] then
      if l.bits == 0 && l.size == 0 then Ok(EmptyKind) else Ok(IntegralKind(l.bits))
    else if 1 in l.fields then
      match LayoutOf(schema, l.fields[1].layoutId)
      case Err(e) => Err(e)
      case Ok(first) =>
        if first.fields == map[] && first.bits == 1 then
          Ok(OptionalKind(if 2 in l.fields then Some(l.fields[2].layoutId) else None))
        else if 3 in l.fields then Ok(ArrayKind(l.fields[3].layoutId))
        else Ok(StringKind)
    else if 3 in l.fields then Ok(ArrayKind(l.fields[3].layoutId))
    else if 2 in l.fields then Ok(StringKind)
    else Ok(StructKind)
  }

  // --- Ranges --------------------------------------------------------------------------------------------------

  datatype RangeView = RangeView(dataByte: nat, count: nat, item: Option<i16>)

  // A field of a range: an absent one reads as zero.
  function ReadRangeField(schema: Schema, blob: Bytes, p: Pos, l: Layout, id: i16): Result<nat, FrozenError> {
    if id !in l.fields then Ok(0)
    else match LayoutOf(schema, l.fields[id].layoutId)
      case Err(e) => Err(e)
      case Ok(fl) => ReadIntegral(blob, Child(p, l.fields[id]), fl.bits)
  }

  function ReadRange(schema: Schema, blob: Bytes, p: Pos, l: Layout): Result<RangeView, FrozenError> {
    match ReadRangeField(schema, blob, p, l, 2)
    case Err(e) => Err(e)
    case Ok(count) =>
      match if count == 0 then Ok(0) else ReadRangeField(schema, blob, p, l, 1)
      case Err(e) => Err(e)
      case Ok(distance) =>
        if p.byte + distance > U64_MAX then Err(DistanceOverflow)
        else Ok(RangeView(p.byte + distance, count, if 3 in l.fields then Some(l.fields[3].layoutId) else None))
  }

  datatype OptionalView = OptionalView(present: bool, valuePos: Pos, value: Option<i16>)

  function ReadOptional(blob: Bytes, p: Pos, l: Layout): Result<OptionalView, FrozenError> {
    if 1 !in l.fields then Err(MissingField(1))
    else match ReadIntegral(blob, Child(p, l.fields[1]), 1)
      case Err(e) => Err(e)
      case Ok(v) =>
        if 2 in l.fields then Ok(OptionalView(v != 0, Child(p, l.fields[2]), Some(l.fields[2].layoutId)))
        else Ok(OptionalView(v != 0, p, None))
  }

  function ReadStringBytes(schema: Schema, blob: Bytes, p: Pos, l: Layout): Result<Bytes, FrozenError> {
    match ReadRange(schema, blob, p, l)
    case Err(e) => Err(e)
    case Ok(range) =>
      if range.dataByte + range.count > U64_MAX then Err(SliceOverflow)
      else if range.dataByte + range.count > |blob| then Err(SlicePastEnd)
      else Ok(blob[range.dataByte..range.dataByte + range.count])
  }

  // A range that is accepted starts at its anchor or behind it, within 64 bits, and at it when it is empty; a string
  // that is accepted is as many bytes as its range counts, all of them the blob's.
  lemma AcceptedInBounds(schema: Schema, blob: Bytes, p: Pos, l: Layout)
    requires p.byte <= |blob|
    ensures var r := ReadRange(schema, blob, p, l);
            r.Ok? ==>
              && p.byte <= r.value.dataByte && (r.value.count == 0 ==> r.value.dataByte == p.byte)
              && (r.value.count > 0 ==> r.value.dataByte <= 0xFFFF_FFFF_FFFF_FFFF)
    ensures var s := ReadStringBytes(schema, blob, p, l);
            s.Ok? ==>
              && ReadRange(schema, blob, p, l).Ok?
              && var RangeView(at, n, _) := ReadRange(schema, blob, p, l).value;
              && |s.value| == n && at + n <= |blob| && s.value == blob[at..at + n]
  {
    hide ReadIntegral;
  }

  // Where element i of a range lies. Bit-strided elements keep the range's own byte anchor.
  function ElementPos(schema: Schema, range: RangeView, i: nat): Result<Pos, FrozenError> {
    if range.item.None? then
      if range.dataByte + i > U64_MAX then Err(ElementOverflow) else Ok(Pos(range.dataByte + i, 0))
    else match LayoutOf(schema, range.item.value)
      case Err(e) => Err(e)
      case Ok(item) =>
        if item.size > 0 then
          if range.dataByte + i * item.size > U64_MAX then Err(ElementOverflow)
          else Ok(Pos(range.dataByte + i * item.size, 0))
        else if i * item.bits > U64_MAX then Err(ElementOverflow)
        else Ok(Pos(range.dataByte, i * item.bits))
  }

  // --- What a writer puts there --------------------------------------------------------------------------------

  // The blob holds the number v in the w bits that start at bit `at`; nothing is stored in no bits.
  predicate Held(blob: Bytes, at: nat, w: nat, v: nat) {
    if w == 0 then v == 0 else w <= 64 && at + w <= 8 * |blob| && Bits(blob, at, w) == v
  }

  function BitOf(p: Pos): nat {
    8 * p.byte + p.bit
  }

  function OffsetBits(f: Field): nat {
    if f.offset < 0 then -(f.offset as int) else 8 * f.offset
  }

  // Field `id` of a value laid out at p holds v. A field the writer left out stands for zero.
  predicate Stores(schema: Schema, blob: Bytes, p: Pos, l: Layout, id: i16, v: nat) {
    if id !in l.fields then v == 0
    else
      && l.fields[id].layoutId in schema.layouts
      && Held(blob, BitOf(p) + OffsetBits(l.fields[id]), schema.layouts[l.fields[id].layoutId].bits, v)
  }

  // A range of `count` elements at p whose first element starts at byte `data`: the distance is counted from p's
  // byte anchor, and an empty range may leave it out.
  predicate RangeStored(schema: Schema, blob: Bytes, p: Pos, l: Layout, data: nat, count: nat) {
    && Stores(schema, blob, p, l, 2, count)
    && (count > 0 ==> p.byte <= data && Stores(schema, blob, p, l, 1, data - p.byte))
  }

  // The bit element i starts at, and the anchor that distances inside it are counted from.
  function Stride(item: Layout): nat {
    if item.size > 0 then 8 * item.size else item.bits
  }

  function ElementAt(item: Layout, data: nat, i: nat): Pos {
    if item.size > 0 then Pos(data + i * item.size, 0) else Pos(data, i * item.bits)
  }

  lemma ElementAtStride(item: Layout, data: nat, i: nat)
    ensures BitOf(ElementAt(item, data, i)) == 8 * data + i * Stride(item)
  {
  }

  // --- Reading gives back what is held -------------------------------------------------------------------------

  predicate Addressable(blob: Bytes) {
    8 * |blob| <= U64_MAX
  }

  lemma ReadsHeld(blob: Bytes, p: Pos, w: nat, v: nat)
    requires Addressable(blob) && Held(blob, BitOf(p), w, v)
    ensures ReadIntegral(blob, p, w) == Ok(v)
  {
    hide Bits;
  }

  lemma ChildBit(p: Pos, f: Field)
    requires BitOf(p) + OffsetBits(f) <= U64_MAX
    ensures BitOf(Child(p, f)) == BitOf(p) + OffsetBits(f)
  {
  }

  lemma ReadsField(blob: Bytes, p: Pos, f: Field, w: nat, v: nat)
    requires Addressable(blob) && Held(blob, BitOf(p) + OffsetBits(f), w, v)
    ensures ReadIntegral(blob, Child(p, f), w) == Ok(v)
  {
    if w > 0 {
      ChildBit(p, f);
      ReadsHeld(blob, Child(p, f), w, v);
    }
  }

  lemma ReadsStored(schema: Schema, blob: Bytes, p: Pos, l: Layout, id: i16, v: nat)
    requires Addressable(blob) && Stores(schema, blob, p, l, id, v)
    ensures ReadRangeField(schema, blob, p, l, id) == Ok(v)
  {
    hide Held, ReadIntegral;
    if id in l.fields {
      ReadsField(blob, p, l.fields[id], schema.layouts[l.fields[id].layoutId].bits, v);
    }
  }

  lemma ReadsRange(schema: Schema, blob: Bytes, p: Pos, l: Layout, data: nat, count: nat)
    requires Addressable(blob) && RangeStored(schema, blob, p, l, data, count) && p.byte <= U64_MAX && data <= U64_MAX
    ensures ReadRange(schema, blob, p, l)
            == Ok(RangeView(if count == 0 then p.byte else data, count,
                            if 3 in l.fields then Some(l.fields[3].layoutId) else None))
  {
    hide Stores, ReadRangeField;
    ReadsStored(schema, blob, p, l, 2, count);
    if count > 0 {
      ReadsStored(schema, blob, p, l, 1, data - p.byte);
    }
  }

  // A string stored at p: its bytes lie at `start`.
  predicate StringStored(schema: Schema, blob: Bytes, p: Pos, l: Layout, s: Bytes, start: nat) {
    && RangeStored(schema, blob, p, l, start, |s|)
    && (s != [] ==> start + |s| <= |blob| && blob[start..start + |s|] == s)
  }

  lemma ReadsString(schema: Schema, blob: Bytes, p: Pos, l: Layout, s: Bytes, start: nat)
    requires Addressable(blob) && StringStored(schema, blob, p, l, s, start) && p.byte <= |blob|
    ensures ReadStringBytes(schema, blob, p, l) == Ok(s)
  {
    hide RangeStored, ReadRange;
    if s == [] {
      assert RangeStored(schema, blob, p, l, p.byte, 0) by {
        EmptyAnywhere(schema, blob, p, l, start);
      }
      ReadsRange(schema, blob, p, l, p.byte, 0);
      assert blob[p.byte..p.byte + 0] == [];
    } else {
      ReadsRange(schema, blob, p, l, start, |s|);
    }
  }

  lemma EmptyAnywhere(schema: Schema, blob: Bytes, p: Pos, l: Layout, start: nat)
    requires RangeStored(schema, blob, p, l, start, 0)
    ensures RangeStored(schema, blob, p, l, p.byte, 0)
  {
  }

  // Elements are found where the stride puts them.
  lemma ReadsElement(schema: Schema, data: nat, count: nat, item: i16, i: nat)
    requires item in schema.layouts
    requires var l := schema.layouts[item]; 8 * data + (i + 1) * Stride(l) <= U64_MAX
    ensures ElementPos(schema, RangeView(data, count, Some(item)), i) == Ok(ElementAt(schema.layouts[item], data, i))
  {
    var l := schema.layouts[item];
    ElementAtStride(l, data, i);
    assert (i + 1) * Stride(l) == i * Stride(l) + Stride(l);
  }

  // --- The one shape the classifier gets wrong -----------------------------------------------------------------

  // A range whose distance is exactly one bit wide.
  predicate OneBitDistance(schema: Schema, l: Layout) {
    && 1 in l.fields && l.fields[1].layoutId in schema.layouts
    && var d := schema.layouts[l.fields[1].layoutId];
    && d.fields == map[] && d.bits == 1
  }

  predicate KnownFields(schema: Schema, l: Layout) {
    forall id :: id in l.fields ==> l.fields[id].layoutId in schema.layouts
  }

  // An array is recognised as one exactly when its distance is not one bit wide; it is taken for an optional then.
  lemma ArrayRecognisedIff(schema: Schema, l: Layout)
    requires KnownFields(schema, l) && 3 in l.fields
    ensures KindOf(schema, l) == Ok(ArrayKind(l.fields[3].layoutId)) <==> !OneBitDistance(schema, l)
    ensures OneBitDistance(schema, l)
            ==> KindOf(schema, l) == Ok(OptionalKind(if 2 in l.fields then Some(l.fields[2].layoutId) else None))
  {
  }
}
