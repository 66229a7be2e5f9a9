/** Lists stored in a Frozen2 blob: structs, integers and strings. */
module FrozenLists {
  import opened Common
  import opened BitBuf
  import opened Layouts
  import opened Frozen
  import opened StringTables

  // --- All results or the first error --------------------------------------------------------------------------

  function Sequence<T, E>(rs: seq<Result<T, E>>): Result<seq<T>, E> {
    if rs == [] then Ok([])
    else match Sequence(rs[..|rs| - 1])
      case Err(e) => Err(e)
      case Ok(vs) =>
        match rs[|rs| - 1]
        case Err(e) => Err(e)
        case Ok(v) => Ok(vs + [v])
  }

  lemma {:induction false} SequenceStops<T, E>(rs: seq<Result<T, E>>, i: nat)
    requires i <= |rs| && Sequence(rs[..i]).Err?
    ensures Sequence(rs) == Sequence(rs[..i])
  {
    if i == |rs| {
      assert rs[..i] == rs;
    } else {
      assert rs[..|rs| - 1][..i] == rs[..i];
      SequenceStops(rs[..|rs| - 1], i);
    }
  }

  lemma {:induction false} SequenceOk<T, E>(rs: seq<Result<T, E>>, vs: seq<T>)
    requires |rs| == |vs| && forall i :: 0 <= i < |rs| ==> rs[i] == Ok(vs[i])
    ensures Sequence(rs) == Ok(vs)
  {
    if vs != [] {
      SequenceOk(rs[..|rs| - 1], vs[..|vs| - 1]);
      assert vs[..|vs| - 1] + [vs[|vs| - 1]] == vs;
    }
  }

  // Each either right or the one error: everything, or that error.
  lemma {:induction false} SequenceOr<T, E>(rs: seq<Result<T, E>>, vs: seq<T>, e: E)
    requires |rs| == |vs| && forall i :: 0 <= i < |rs| ==> rs[i] == Ok(vs[i]) || rs[i] == Err(e)
    ensures Sequence(rs) == if forall i :: 0 <= i < |rs| ==> rs[i].Ok? then Ok(vs) else Err(e)
  {
    if vs != [] {
      var n := |vs| - 1;
      SequenceOr(rs[..n], vs[..n], e);
      assert vs[..n] + [vs[n]] == vs;
      assert (forall i :: 0 <= i < |rs| ==> rs[i].Ok?) <==>
               (forall i :: 0 <= i < n ==> rs[..n][i].Ok?) && rs[n].Ok? by {
        if forall i :: 0 <= i < n ==> rs[..n][i].Ok? {
          forall i | 0 <= i < n ensures rs[i].Ok? {
            assert rs[..n][i].Ok?;
          }
        }
      }
    }
  }

  // --- Finding a list ------------------------------------------------------------------------------------------

  // The layout and place of a root list, out of its optional wrapper if it has one.
  function ResolveList(schema: Schema, blob: Bytes, root: Layout, id: i16): Result<Option<(Layout, Pos)>, FrozenError> {
    if id !in root.fields then Ok(None)
    else
      var at := Child(ROOT, root.fields[id]);
      match LayoutOf(schema, root.fields[id].layoutId)
      case Err(e) => Err(e)
      case Ok(outer) =>
        match KindOf(schema, outer)
        case Err(e) => Err(e)
        case Ok(kind) =>
          if !kind.OptionalKind? then Ok(Some((outer, at)))
          else match ReadOptional(blob, at, outer)
            case Err(e) => Err(e)
            case Ok(opt) =>
              if !opt.present || kind.value.None? then Ok(None)
              else match LayoutOf(schema, kind.value.value)
                case Err(e) => Err(e)
                case Ok(inner) => Ok(Some((inner, opt.valuePos)))
  }

  // The range of a list and its item layout, once its kind and its count are accepted.
  function OpenArray(schema: Schema, blob: Bytes, l: Layout, p: Pos): Result<(RangeView, Layout), FrozenError> {
    match KindOf(schema, l)
    case Err(e) => Err(e)
    case Ok(kind) =>
      if !kind.ArrayKind? then Err(NotAList)
      else match ReadRange(schema, blob, p, l)
        case Err(e) => Err(e)
        case Ok(range) =>
          if range.count > LIST_CAP then Err(CapExceeded(range.count))
          else match LayoutOf(schema, kind.item)
            case Err(e) => Err(e)
            case Ok(item) => Ok((range, item))
  }

  // --- Lists of structs ----------------------------------------------------------------------------------------

  // A column a list reader asks for: a field id, and whether 64 bits are wanted or 32.
  datatype Want = Want(id: i16, wide: bool)

  // Where a column lies within an item and how wide it is, resolved once for a whole list.
  datatype Column = Column(field: Option<Field>, bits: nat)

  function ResolveColumn(schema: Schema, item: Layout, id: i16): Result<Column, FrozenError> {
    if id !in item.fields then Ok(Column(None, 0))
    else match LayoutOf(schema, item.fields[id].layoutId)
      case Err(e) => Err(e)
      case Ok(l) => Ok(Column(Some(item.fields[id]), l.bits))
  }

  function ReadColumn(blob: Bytes, p: Pos, c: Column): Result<nat, FrozenError> {
    if c.field.None? then Ok(0) else ReadIntegral(blob, Child(p, c.field.value), c.bits)
  }

  function ReadCell(blob: Bytes, p: Pos, c: Column, wide: bool): Result<nat, FrozenError> {
    match ReadColumn(blob, p, c)
    case Err(e) => Err(e)
    case Ok(v) => if !wide && v > U32_MAX then Err(ValueTooWide) else Ok(v)
  }

  function Columns(schema: Schema, item: Layout, wants: seq<Want>): Result<seq<Column>, FrozenError> {
    Sequence(seq(|wants|, c requires 0 <= c < |wants| => ResolveColumn(schema, item, wants[c].id)))
  }

  function ReadCells(blob: Bytes, p: Pos, cols: seq<Column>, wants: seq<Want>): Result<seq<nat>, FrozenError> {
    var n := Min(|cols|, |wants|);
    Sequence(seq(n, c requires 0 <= c < |cols| && c < |wants| => ReadCell(blob, p, cols[c], wants[c].wide)))
  }

  function ReadRow(schema: Schema, blob: Bytes, range: RangeView, cols: seq<Column>, wants: seq<Want>, i: nat)
    : Result<seq<nat>, FrozenError>
  {
    match ElementPos(schema, range, i)
    case Err(e) => Err(e)
    case Ok(p) => ReadCells(blob, p, cols, wants)
  }

  function ReadRows(schema: Schema, blob: Bytes, range: RangeView, cols: seq<Column>, wants: seq<Want>)
    : seq<Result<seq<nat>, FrozenError>>
  {
    seq(range.count, i requires 0 <= i => ReadRow(schema, blob, range, cols, wants, i))
  }

  function RowsAt(schema: Schema, blob: Bytes, l: Layout, p: Pos, wants: seq<Want>)
    : Result<seq<seq<nat>>, FrozenError>
  {
    match OpenArray(schema, blob, l, p)
    case Err(e) => Err(e)
    case Ok(list) =>
      match Columns(schema, list.1, wants)
      case Err(e) => Err(e)
      case Ok(cols) => Sequence(ReadRows(schema, blob, list.0, cols, wants))
  }

  function Rows(schema: Schema, blob: Bytes, root: Layout, id: i16, wants: seq<Want>)
    : Result<seq<seq<nat>>, FrozenError>
  {
    match ResolveList(schema, blob, root, id)
    case Err(e) => Err(e)
    case Ok(found) => if found.None? then Ok([]) else RowsAt(schema, blob, found.value.0, found.value.1, wants)
  }

  method DecodeStructList(schema: Schema, blob: Bytes, root: Layout, id: i16, wants: seq<Want>)
    returns (r: Result<seq<seq<nat>>, FrozenError>)
    ensures r == Rows(schema, blob, root, id, wants)
  {
    hide OpenArray, ResolveList, ReadRow, Columns;
    var found := ResolveList(schema, blob, root, id);
    if found.Err? {
      return Err(found.error);
    }
    if found.value.None? {
      return Ok([]);
    }
    var list := OpenArray(schema, blob, found.value.value.0, found.value.value.1);
    if list.Err? {
      return Err(list.error);
    }
    var range := list.value.0;
    var cols := Columns(schema, list.value.1, wants);
    if cols.Err? {
      return Err(cols.error);
    }
    ghost var rows := ReadRows(schema, blob, range, cols.value, wants);
    var out: seq<seq<nat>> := [];
    for i := 0 to range.count
      invariant Sequence(rows[..i]) == Ok(out)
    {
      var row := ReadRow(schema, blob, range, cols.value, wants, i);
      assert rows[..i + 1][..i] == rows[..i] && rows[i] == row;
      if row.Err? {
        SequenceStops(rows, i + 1);
        return Err(row.error);
      }
      out := out + [row.value];
    }
    assert rows[..range.count] == rows;
    return Ok(out);
  }

  // --- Lists of integers ---------------------------------------------------------------------------------------

  function Zeros(n: nat): (zs: seq<nat>)
    ensures |zs| == n && forall i :: 0 <= i < n ==> zs[i] == 0
  {
    seq(n, _ => 0)
  }

  function ReadInt(schema: Schema, blob: Bytes, range: RangeView, bits: nat, i: nat): Result<nat, FrozenError> {
    match ElementPos(schema, range, i)
    case Err(e) => Err(e)
    case Ok(p) => ReadIntegral(blob, p, bits)
  }

  function ReadInts(schema: Schema, blob: Bytes, range: RangeView, bits: nat): seq<Result<nat, FrozenError>> {
    seq(range.count, i requires 0 <= i => ReadInt(schema, blob, range, bits, i))
  }

  // How the elements of an accepted integer list are stored: as many zeros, or at a width.
  function OpenInts(schema: Schema, blob: Bytes, l: Layout, p: Pos): Result<(RangeView, nat), FrozenError> {
    match KindOf(schema, l)
    case Err(e) => Err(e)
    case Ok(kind) =>
      match ReadRange(schema, blob, p, l)
      case Err(e) => Err(e)
      case Ok(range) =>
        if range.count > LIST_CAP then Err(CapExceeded(range.count))
        else match kind
          case ArrayKind(id) =>
            (match LayoutOf(schema, id)
             case Err(e) => Err(e)
             case Ok(item) => if item.fields != map[] then Err(NotAList) else Ok((range, item.bits)))
          case StringKind => Ok((range, 0))
          case _ => Err(NotAList)
  }

  function IntsAt(schema: Schema, blob: Bytes, l: Layout, p: Pos): Result<seq<nat>, FrozenError> {
    match OpenInts(schema, blob, l, p)
    case Err(e) => Err(e)
    case Ok(list) =>
      if list.1 == 0 then Ok(Zeros(list.0.count)) else Sequence(ReadInts(schema, blob, list.0, list.1))
  }

  function Ints(schema: Schema, blob: Bytes, root: Layout, id: i16): Result<seq<nat>, FrozenError> {
    match ResolveList(schema, blob, root, id)
    case Err(e) => Err(e)
    case Ok(found) => if found.None? then Ok([]) else IntsAt(schema, blob, found.value.0, found.value.1)
  }

  method ReadIntList(schema: Schema, blob: Bytes, root: Layout, id: i16) returns (r: Result<seq<nat>, FrozenError>)
    ensures r == Ints(schema, blob, root, id)
  {
    hide OpenInts, ResolveList, ReadInt;
    var found := ResolveList(schema, blob, root, id);
    if found.Err? {
      return Err(found.error);
    }
    if found.value.None? {
      return Ok([]);
    }
    var list := OpenInts(schema, blob, found.value.value.0, found.value.value.1);
    if list.Err? {
      return Err(list.error);
    }
    var range, bits := list.value.0, list.value.1;
    if bits == 0 {
      return Ok(Zeros(range.count));
    }
    ghost var ints := ReadInts(schema, blob, range, bits);
    var out: seq<nat> := [];
    for i := 0 to range.count
      invariant Sequence(ints[..i]) == Ok(out)
    {
      var v := ReadInt(schema, blob, range, bits, i);
      assert ints[..i + 1][..i] == ints[..i] && ints[i] == v;
      if v.Err? {
        SequenceStops(ints, i + 1);
        return Err(v.error);
      }
      out := out + [v.value];
    }
    assert ints[..range.count] == ints;
    return Ok(out);
  }

  // --- Lists of strings ----------------------------------------------------------------------------------------

  function ReadElementString(schema: Schema, blob: Bytes, range: RangeView, item: Layout, i: nat)
    : Result<Bytes, FrozenError>
  {
    match ElementPos(schema, range, i)
    case Err(e) => Err(e)
    case Ok(p) => ReadStringBytes(schema, blob, p, item)
  }

  function ReadStrings(schema: Schema, blob: Bytes, range: RangeView, item: Layout)
    : (rs: seq<Result<Bytes, FrozenError>>)
    ensures |rs| == range.count
  {
    seq(range.count, i requires 0 <= i => ReadElementString(schema, blob, range, item, i))
  }

  function StringsAt(schema: Schema, blob: Bytes, l: Layout, p: Pos): Result<StringTable, FrozenError> {
    match OpenArray(schema, blob, l, p)
    case Err(e) => Err(e)
    case Ok(list) => Tabled(ReadStrings(schema, blob, list.0, list.1), TableTooLarge)
  }

  function Strings(schema: Schema, blob: Bytes, root: Layout, id: i16): Result<StringTable, FrozenError> {
    match ResolveList(schema, blob, root, id)
    case Err(e) => Err(e)
    case Ok(found) => if found.None? then Ok(EMPTY_TABLE) else StringsAt(schema, blob, found.value.0, found.value.1)
  }

  method ReadPlainStringList(schema: Schema, blob: Bytes, root: Layout, id: i16)
    returns (r: Result<StringTable, FrozenError>)
    ensures r == Strings(schema, blob, root, id)
  {
    hide OpenArray, ResolveList, ReadElementString;
    var found := ResolveList(schema, blob, root, id);
    if found.Err? {
      return Err(found.error);
    }
    if found.value.None? {
      return Ok(EMPTY_TABLE);
    }
    var list := OpenArray(schema, blob, found.value.value.0, found.value.value.1);
    if list.Err? {
      return Err(list.error);
    }
    var range, item := list.value.0, list.value.1;
    ghost var strings := ReadStrings(schema, blob, range, item);
    var data: Bytes, offsets: seq<nat> := [], [0];
    for i := 0 to range.count
      invariant Tabled(strings[..i], TableTooLarge) == Ok(StringTable(data, offsets))
    {
      var s := ReadElementString(schema, blob, range, item, i);
      assert strings[..i + 1][..i] == strings[..i] && strings[i] == s;
      if s.Err? || |data| + |s.value| > U32_MAX {
        TabledStops(strings, i + 1, TableTooLarge);
      }
      if s.Err? {
        return Err(s.error);
      }
      data := data + s.value;
      if |data| > U32_MAX {
        return Err(TableTooLarge);
      }
      offsets := offsets + [|data|];
    }
    assert strings[..range.count] == strings;
    return Ok(StringTable(data, offsets));
  }
}
