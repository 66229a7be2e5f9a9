/** Reading the Thrift compact protocol. */
module Thrift {
  import opened Common
  import opened Layouts

  datatype TType =
    | TStop | TTrue | TFalse | TI8 | TI16 | TI32 | TI64 | TDouble | TBinary | TList | TSet | TMap | TStruct

  datatype ThriftError =
    | EndOfInput
    | VarintTooLong
    | OutOfRange
    | UnknownType
    | FieldIdOverflow
    | UnexpectedMapTypes
    | NegativeValue

  function CodeOf(t: TType): (c: nat)
    ensures c <= 12 && TypeOf(c) == Ok(t)
  {
    match t
    case TStop => 0
    case TTrue => 1
    case TFalse => 2
    case TI8 => 3
    case TI16 => 4
    case TI32 => 5
    case TI64 => 6
    case TDouble => 7
    case TBinary => 8
    case TList => 9
    case TSet => 10
    case TMap => 11
    case TStruct => 12
  }

  function TypeOf(code: nat): Result<TType, ThriftError> {
    match code % 16
    case 0 => Ok(TStop)
    case 1 => Ok(TTrue)
    case 2 => Ok(TFalse)
    case 3 => Ok(TI8)
    case 4 => Ok(TI16)
    case 5 => Ok(TI32)
    case 6 => Ok(TI64)
    case 7 => Ok(TDouble)
    case 8 => Ok(TBinary)
    case 9 => Ok(TList)
    case 10 => Ok(TSet)
    case 11 => Ok(TMap)
    case 12 => Ok(TStruct)
    case _ => Err(UnknownType)
  }

  // What is read at a position, and the position behind it.
  datatype Read<+T> = Read(value: T, next: nat)

  type Step<+T> = Result<Read<T>, ThriftError>

  function ByteAt(b: Bytes, pos: nat): Step<byte> {
    if pos < |b| then Ok(Read(b[pos], pos + 1)) else Err(EndOfInput)
  }

  function SliceAt(b: Bytes, pos: nat, n: nat): Step<Bytes> {
    if pos + n <= |b| then Ok(Read(b[pos..pos + n], pos + n)) else Err(EndOfInput)
  }

  // 2^(7k), the weight of the k-th seven bits.
  function Weight(k: nat): (w: nat)
    ensures w > 0
  {
    if k == 0 then 1 else 128 * Weight(k - 1)
  }

  // Seven bits a byte, low bits first, at most ten bytes; what the tenth shifts out of 64 bits is lost.
  function VarintFrom(b: Bytes, pos: nat, k: nat, acc: nat): Step<nat>
    requires k <= 10
    decreases 10 - k
  {
    if k == 10 then Err(VarintTooLong)
    else if pos >= |b| then Err(EndOfInput)
    else
      var sum := acc + (b[pos] % 128 * Weight(k)) % (U64_MAX + 1);
      if b[pos] < 128 then Ok(Read(sum, pos + 1)) else VarintFrom(b, pos + 1, k + 1, sum)
  }

  function VarintAt(b: Bytes, pos: nat): Step<nat> {
    VarintFrom(b, pos, 0, 0)
  }

  lemma {:induction false} VarintAdvances(b: Bytes, pos: nat, k: nat, acc: nat)
    requires k <= 10 && VarintFrom(b, pos, k, acc).Ok?
    ensures pos < VarintFrom(b, pos, k, acc).value.next <= |b|
    decreases 10 - k
  {
    if b[pos] >= 128 {
      VarintAdvances(b, pos + 1, k + 1, acc + (b[pos] % 128 * Weight(k)) % (U64_MAX + 1));
    }
  }

  function UnZigZag(v: nat): int {
    if v % 2 == 0 then v / 2 else -(v / 2) as int - 1
  }

  function ZigZagAt(b: Bytes, pos: nat): Step<int> {
    match VarintAt(b, pos)
    case Err(e) => Err(e)
    case Ok(r) => Ok(Read(UnZigZag(r.value), r.next))
  }

  function I16At(b: Bytes, pos: nat): Step<i16> {
    match ZigZagAt(b, pos)
    case Err(e) => Err(e)
    case Ok(r) => if -0x8000 <= r.value <= 0x7FFF then Ok(Read(r.value as i16, r.next)) else Err(OutOfRange)
  }

  function I32At(b: Bytes, pos: nat): Step<i32> {
    match ZigZagAt(b, pos)
    case Err(e) => Err(e)
    case Ok(r) => if -0x8000_0000 <= r.value <= 0x7FFF_FFFF then Ok(Read(r.value as i32, r.next)) else Err(OutOfRange)
  }

  function BinaryAt(b: Bytes, pos: nat): Step<Bytes> {
    match VarintAt(b, pos)
    case Err(e) => Err(e)
    case Ok(r) => SliceAt(b, r.next, r.value)
  }

  datatype ListHeader = ListHeader(elem: TType, count: u32)

  function ListHeaderAt(b: Bytes, pos: nat): Step<ListHeader> {
    if pos >= |b| then Err(EndOfInput)
    else match TypeOf(b[pos])
      case Err(e) => Err(e)
      case Ok(t) =>
        if b[pos] / 16 != 15 then Ok(Read(ListHeader(t, b[pos] / 16), pos + 1))
        else match VarintAt(b, pos + 1)
          case Err(e) => Err(e)
          case Ok(r) => if r.value > U32_MAX then Err(OutOfRange) else Ok(Read(ListHeader(t, r.value), r.next))
  }

  datatype MapHeader = MapHeader(key: TType, val: TType, count: u32)

  // An empty map has no type byte.
  function MapHeaderAt(b: Bytes, pos: nat): Step<MapHeader> {
    match VarintAt(b, pos)
    case Err(e) => Err(e)
    case Ok(r) =>
      if r.value > U32_MAX then Err(OutOfRange)
      else if r.value == 0 then Ok(Read(MapHeader(TStop, TStop, 0), r.next))
      else if r.next >= |b| then Err(EndOfInput)
      else match TypeOf(b[r.next] / 16)
        case Err(e) => Err(e)
        case Ok(k) =>
          match TypeOf(b[r.next])
          case Err(e) => Err(e)
          case Ok(v) => Ok(Read(MapHeader(k, v, r.value), r.next + 1))
  }

  datatype FieldHeader = FieldHeader(ttype: TType, id: i16)

  // The next field of a struct whose last field had id `last`, or none at its end.
  function FieldHeaderAt(b: Bytes, pos: nat, last: i16): Step<Option<FieldHeader>> {
    if pos >= |b| then Err(EndOfInput)
    else if b[pos] == 0 then Ok(Read(None, pos + 1))
    else match TypeOf(b[pos])
      case Err(e) => Err(e)
      case Ok(t) =>
        var delta := b[pos] / 16;
        if delta == 0 then
          match I16At(b, pos + 1)
          case Err(e) => Err(e)
          case Ok(r) => Ok(Read(Some(FieldHeader(t, r.value)), r.next))
        else if last + delta > 0x7FFF then Err(FieldIdOverflow)
        else Ok(Read(Some(FieldHeader(t, last + delta)), pos + 1))
  }

  function Left(b: Bytes, pos: nat): nat {
    if pos <= |b| then |b| - pos else 0
  }

  // --- Skipping ------------------------------------------------------------------------------------------------

  lemma HeadersAdvance(b: Bytes, pos: nat, last: i16)
    ensures VarintAt(b, pos).Ok? ==> pos < VarintAt(b, pos).value.next <= |b|
    ensures ListHeaderAt(b, pos).Ok? ==> pos < ListHeaderAt(b, pos).value.next <= |b|
    ensures MapHeaderAt(b, pos).Ok? ==> pos < MapHeaderAt(b, pos).value.next <= |b|
    ensures FieldHeaderAt(b, pos, last).Ok? ==> pos < FieldHeaderAt(b, pos, last).value.next <= |b|
  {
    if VarintAt(b, pos).Ok? {
      VarintAdvances(b, pos, 0, 0);
    }
    if VarintAt(b, pos + 1).Ok? {
      VarintAdvances(b, pos + 1, 0, 0);
    }
  }

  // The position behind a value of the given type. Nothing is ever read backwards.
  function SkipValueFrom(b: Bytes, pos: nat, t: TType): (r: Result<nat, ThriftError>)
    ensures r.Ok? ==> pos <= r.value
    decreases Left(b, pos), 1, 0
  {
    HeadersAdvance(b, pos, 0);
    match t
    case TStop | TTrue | TFalse => Ok(pos)
    case TI8 => if pos < |b| then Ok(pos + 1) else Err(EndOfInput)
    case TI16 | TI32 | TI64 => (match VarintAt(b, pos) case Err(e) => Err(e) case Ok(v) => Ok(v.next))
    case TDouble => if pos + 8 <= |b| then Ok(pos + 8) else Err(EndOfInput)
    case TBinary => (match BinaryAt(b, pos) case Err(e) => Err(e) case Ok(v) => Ok(v.next))
    case TList | TSet =>
      (match ListHeaderAt(b, pos)
       case Err(e) => Err(e)
       case Ok(h) => SkipElementsFrom(b, h.next, h.value.elem, h.value.count))
    case TMap =>
      (match MapHeaderAt(b, pos)
       case Err(e) => Err(e)
       case Ok(h) => SkipEntriesFrom(b, h.next, h.value.key, h.value.val, h.value.count))
    case TStruct => SkipFieldsFrom(b, pos, 0)
  }

  // An element's boolean takes a byte; a field's is in its header.
  function SkipElementFrom(b: Bytes, pos: nat, t: TType): (r: Result<nat, ThriftError>)
    ensures r.Ok? ==> pos <= r.value
    decreases Left(b, pos), 2, 0
  {
    if t == TTrue || t == TFalse then (if pos < |b| then Ok(pos + 1) else Err(EndOfInput)) else SkipValueFrom(b, pos, t)
  }

  function SkipElementsFrom(b: Bytes, pos: nat, t: TType, n: nat): (r: Result<nat, ThriftError>)
    ensures r.Ok? ==> pos <= r.value
    decreases Left(b, pos), 3, n
  {
    if n == 0 then Ok(pos)
    else match SkipElementFrom(b, pos, t)
      case Err(e) => Err(e)
      case Ok(next) => SkipElementsFrom(b, next, t, n - 1)
  }

  function SkipEntriesFrom(b: Bytes, pos: nat, k: TType, v: TType, n: nat): (r: Result<nat, ThriftError>)
    ensures r.Ok? ==> pos <= r.value
    decreases Left(b, pos), 3, n
  {
    if n == 0 then Ok(pos)
    else match SkipElementFrom(b, pos, k)
      case Err(e) => Err(e)
      case Ok(mid) =>
        match SkipElementFrom(b, mid, v)
        case Err(e) => Err(e)
        case Ok(next) => SkipEntriesFrom(b, next, k, v, n - 1)
  }

  function SkipFieldsFrom(b: Bytes, pos: nat, last: i16): (r: Result<nat, ThriftError>)
    ensures r.Ok? ==> pos <= r.value
    decreases Left(b, pos), 0, 0
  {
    HeadersAdvance(b, pos, last);
    match FieldHeaderAt(b, pos, last)
    case Err(e) => Err(e)
    case Ok(h) =>
      if h.value.None? then Ok(h.next)
      else match SkipValueFrom(b, h.next, h.value.value.ttype)
        case Err(e) => Err(e)
        case Ok(next) => SkipFieldsFrom(b, next, h.value.value.id)
  }

  // --- The reader ----------------------------------------------------------------------------------------------

  // Reads in place: a position, the id of the last field read in the current struct, and those of the structs that
  // enclose it.
  class ThriftReader {
    const bytes: Bytes
    var pos: nat
    var lastFieldId: i16
    var stack: seq<i16>

    constructor (input: Bytes)
      ensures bytes == input && pos == 0 && lastFieldId == 0 && stack == []
    {
      bytes := input;
      pos := 0;
      lastFieldId := 0;
      stack := [];
    }

    // A read moves the position to where the specification says, or fails as it says.
    predicate Follows<T(==)>(r: Result<T, ThriftError>, spec: Step<T>)
      reads this
    {
      if spec.Ok? then r == Ok(spec.value.value) && pos == spec.value.next else r == Err(spec.error)
    }

    predicate Behind(r: Result<(), ThriftError>, spec: Result<nat, ThriftError>)
      reads this
    {
      if spec.Ok? then r == Ok(()) && pos == spec.value else r == Err(spec.error)
    }

    method ReadByte() returns (r: Result<byte, ThriftError>)
      modifies this`pos
      ensures Follows(r, ByteAt(bytes, old(pos)))
    {
      if pos >= |bytes| {
        return Err(EndOfInput);
      }
      r := Ok(bytes[pos]);
      pos := pos + 1;
    }

    method ReadSlice(n: nat) returns (r: Result<Bytes, ThriftError>)
      modifies this`pos
      ensures Follows(r, SliceAt(bytes, old(pos), n))
    {
      var end := pos + n;
      if end > |bytes| {
        return Err(EndOfInput);
      }
      r := Ok(bytes[pos..end]);
      pos := end;
    }

    method ReadVarint() returns (r: Result<nat, ThriftError>)
      modifies this`pos
      ensures Follows(r, VarintAt(bytes, old(pos)))
    {
      var result: nat := 0;
      var weight := 1;
      for i := 0 to 10
        invariant weight == Weight(i)
        invariant VarintAt(bytes, old(pos)) == VarintFrom(bytes, pos, i, result)
      {
        var b := ReadByte();
        if b.Err? {
          return Err(b.error);
        }
        result := result + (b.value % 128 * weight) % (U64_MAX + 1);
        if b.value < 128 {
          return Ok(result);
        }
        weight := 128 * weight;
      }
      return Err(VarintTooLong);
    }

    method ReadZigZag() returns (r: Result<int, ThriftError>)
      modifies this`pos
      ensures Follows(r, ZigZagAt(bytes, old(pos)))
    {
      var v := ReadVarint();
      if v.Err? {
        return Err(v.error);
      }
      return Ok(UnZigZag(v.value));
    }

    method ReadI16() returns (r: Result<i16, ThriftError>)
      modifies this`pos
      ensures Follows(r, I16At(bytes, old(pos)))
    {
      var v := ReadZigZag();
      if v.Err? {
        return Err(v.error);
      }
      if v.value < -0x8000 || v.value > 0x7FFF {
        return Err(OutOfRange);
      }
      return Ok(v.value as i16);
    }

    method ReadI32() returns (r: Result<i32, ThriftError>)
      modifies this`pos
      ensures Follows(r, I32At(bytes, old(pos)))
    {
      var v := ReadZigZag();
      if v.Err? {
        return Err(v.error);
      }
      if v.value < -0x8000_0000 || v.value > 0x7FFF_FFFF {
        return Err(OutOfRange);
      }
      return Ok(v.value as i32);
    }

    method ReadBinary() returns (r: Result<Bytes, ThriftError>)
      modifies this`pos
      ensures Follows(r, BinaryAt(bytes, old(pos)))
    {
      var n := ReadVarint();
      if n.Err? {
        return Err(n.error);
      }
      r := ReadSlice(n.value);
    }

    method ReadListHeader() returns (r: Result<ListHeader, ThriftError>)
      modifies this`pos
      ensures Follows(r, ListHeaderAt(bytes, old(pos)))
    {
      var header := ReadByte();
      if header.Err? {
        return Err(header.error);
      }
      var t := TypeOf(header.value);
      if t.Err? {
        return Err(t.error);
      }
      var small := header.value / 16;
      if small != 15 {
        return Ok(ListHeader(t.value, small));
      }
      var big := ReadVarint();
      if big.Err? {
        return Err(big.error);
      }
      if big.value > U32_MAX {
        return Err(OutOfRange);
      }
      return Ok(ListHeader(t.value, big.value));
    }

    method ReadMapHeader() returns (r: Result<MapHeader, ThriftError>)
      modifies this`pos
      ensures Follows(r, MapHeaderAt(bytes, old(pos)))
    {
      var count := ReadVarint();
      if count.Err? {
        return Err(count.error);
      }
      if count.value > U32_MAX {
        return Err(OutOfRange);
      }
      if count.value == 0 {
        return Ok(MapHeader(TStop, TStop, 0));
      }
      var kv := ReadByte();
      if kv.Err? {
        return Err(kv.error);
      }
      var k := TypeOf(kv.value / 16);
      if k.Err? {
        return Err(k.error);
      }
      var v := TypeOf(kv.value);
      if v.Err? {
        return Err(v.error);
      }
      return Ok(MapHeader(k.value, v.value, count.value));
    }

    method ReadStructBegin()
      modifies this`lastFieldId, this`stack
      ensures stack == old(stack) + [old(lastFieldId)] && lastFieldId == 0
    {
      stack := stack + [lastFieldId];
      lastFieldId := 0;
    }

    method ReadStructEnd()
      modifies this`lastFieldId, this`stack
      ensures old(stack) == [] ==> stack == [] && lastFieldId == 0
      ensures old(stack) != [] ==>
                stack == old(stack)[..|old(stack)| - 1] && lastFieldId == old(stack)[|old(stack)| - 1]
    {
      if stack == [] {
        lastFieldId := 0;
      } else {
        lastFieldId := stack[|stack| - 1];
        stack := stack[..|stack| - 1];
      }
    }

    method ReadFieldHeader() returns (r: Result<Option<FieldHeader>, ThriftError>)
      modifies this`pos, this`lastFieldId
      ensures Follows(r, FieldHeaderAt(bytes, old(pos), old(lastFieldId)))
      ensures r.Ok? && r.value.Some? ==> lastFieldId == r.value.value.id
    {
      var header := ReadByte();
      if header.Err? {
        return Err(header.error);
      }
      if header.value == 0 {
        return Ok(None);
      }
      var t := TypeOf(header.value);
      if t.Err? {
        return Err(t.error);
      }
      var delta := header.value / 16;
      var id: i16;
      if delta == 0 {
        var explicitId := ReadI16();
        if explicitId.Err? {
          return Err(explicitId.error);
        }
        id := explicitId.value;
      } else {
        if lastFieldId + delta > 0x7FFF {
          return Err(FieldIdOverflow);
        }
        id := lastFieldId + delta;
      }
      lastFieldId := id;
      return Ok(Some(FieldHeader(t.value, id)));
    }

    // Consumes one value, and leaves the current struct's bookkeeping as it was.
    method SkipValue(t: TType) returns (r: Result<(), ThriftError>)
      modifies this`pos, this`lastFieldId, this`stack
      ensures r.Ok? ==> lastFieldId == old(lastFieldId) && stack == old(stack)
      ensures Behind(r, SkipValueFrom(bytes, old(pos), t))
      decreases Left(bytes, pos), 1
    {
      hide VarintFrom, ListHeaderAt, MapHeaderAt, FieldHeaderAt, TypeOf;
      HeadersAdvance(bytes, pos, 0);
      match t {
        case TStop | TTrue | TFalse =>
          return Ok(());
        case TI8 =>
          var v := ReadByte();
          return Outcome(v);
        case TI16 | TI32 | TI64 =>
          var v := ReadVarint();
          return Outcome(v);
        case TDouble =>
          var v := ReadSlice(8);
          return Outcome(v);
        case TBinary =>
          var v := ReadBinary();
          return Outcome(v);
        case TList | TSet =>
          var h := ReadListHeader();
          if h.Err? {
            return Err(h.error);
          }
          r := SkipElements(h.value.elem, h.value.count);
        case TMap =>
          var h := ReadMapHeader();
          if h.Err? {
            return Err(h.error);
          }
          r := SkipEntries(h.value.key, h.value.val, h.value.count);
        case TStruct =>
          r := SkipStruct();
      }
    }

    method SkipElements(t: TType, count: nat) returns (r: Result<(), ThriftError>)
      modifies this`pos, this`lastFieldId, this`stack
      ensures r.Ok? ==> lastFieldId == old(lastFieldId) && stack == old(stack)
      ensures Behind(r, SkipElementsFrom(bytes, old(pos), t, count))
      decreases Left(bytes, pos), 3
    {
      for i := 0 to count
        invariant SkipElementsFrom(bytes, old(pos), t, count) == SkipElementsFrom(bytes, pos, t, count - i)
        invariant Left(bytes, pos) <= Left(bytes, old(pos))
        invariant lastFieldId == old(lastFieldId) && stack == old(stack)
      {
        var v := SkipElement(t);
        if v.Err? {
          return v;
        }
      }
      return Ok(());
    }

    method SkipEntries(kt: TType, vt: TType, count: nat) returns (r: Result<(), ThriftError>)
      modifies this`pos, this`lastFieldId, this`stack
      ensures r.Ok? ==> lastFieldId == old(lastFieldId) && stack == old(stack)
      ensures Behind(r, SkipEntriesFrom(bytes, old(pos), kt, vt, count))
      decreases Left(bytes, pos), 3
    {
      for i := 0 to count
        invariant SkipEntriesFrom(bytes, old(pos), kt, vt, count) == SkipEntriesFrom(bytes, pos, kt, vt, count - i)
        invariant Left(bytes, pos) <= Left(bytes, old(pos))
        invariant lastFieldId == old(lastFieldId) && stack == old(stack)
      {
        var k := SkipElement(kt);
        if k.Err? {
          return k;
        }
        var v := SkipElement(vt);
        if v.Err? {
          return v;
        }
      }
      return Ok(());
    }

    method SkipStruct() returns (r: Result<(), ThriftError>)
      modifies this`pos, this`lastFieldId, this`stack
      ensures r.Ok? ==> lastFieldId == old(lastFieldId) && stack == old(stack)
      ensures Behind(r, SkipFieldsFrom(bytes, old(pos), 0))
      decreases Left(bytes, pos), 0
    {
      hide FieldHeaderAt, SkipValueFrom;
      ReadStructBegin();
      while true
        invariant SkipFieldsFrom(bytes, old(pos), 0) == SkipFieldsFrom(bytes, pos, lastFieldId)
        invariant Left(bytes, pos) <= Left(bytes, old(pos))
        invariant stack == old(stack) + [old(lastFieldId)]
        decreases Left(bytes, pos)
      {
        HeadersAdvance(bytes, pos, lastFieldId);
        var field := ReadFieldHeader();
        if field.Err? {
          return Err(field.error);
        }
        if field.value.None? {
          assert SkipFieldsFrom(bytes, old(pos), 0) == Ok(pos);
          ReadStructEnd();
          return Ok(());
        }
        var v := SkipValue(field.value.value.ttype);
        if v.Err? {
          return v;
        }
      }
    }

    method SkipElement(t: TType) returns (r: Result<(), ThriftError>)
      modifies this`pos, this`lastFieldId, this`stack
      ensures r.Ok? ==> lastFieldId == old(lastFieldId) && stack == old(stack)
      ensures Behind(r, SkipElementFrom(bytes, old(pos), t))
      decreases Left(bytes, pos), 2
    {
      if t == TTrue || t == TFalse {
        var v := ReadByte();
        return Outcome(v);
      }
      r := SkipValue(t);
    }
  }

  function Outcome<T>(r: Result<T, ThriftError>): Result<(), ThriftError> {
    match r
    case Ok(_) => Ok(())
    case Err(e) => Err(e)
  }
}
