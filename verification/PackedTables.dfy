/**
 String tables as the metadata stores them: one buffer, an index that may be packed,
 symbols that may be compressed.
 */
module PackedTables {
  import opened Common
  import opened StringTables
  import opened Fsst

  datatype TableError = BadWindow(start: nat, end: nat) | BadSymbols(error: FsstError) | TooLarge

  // Running sums of a packed index, in 32 bits.
  function Sums(deltas: seq<nat>, from: nat): (r: seq<nat>)
    ensures |r| == |deltas|
  {
    if deltas == [] then [] else var s := (from + deltas[0]) % 0x1_0000_0000; [s] + Sums(deltas[1..], s)
  }

  method InclusivePrefixSum(deltas: seq<nat>) returns (out: seq<nat>)
    ensures out == Sums(deltas, 0)
  {
    out := [];
    var acc: nat := 0;
    for i := 0 to |deltas|
      invariant out + Sums(deltas[i..], acc) == Sums(deltas, 0)
    {
      assert deltas[i..][1..] == deltas[i + 1..];
      acc := (acc + deltas[i]) % 0x1_0000_0000;
      out := out + [acc];
    }
    assert deltas[|deltas|..] == [];
  }

  // A packed index leaves out its leading zero.
  function Offsets(index: seq<nat>, packed: bool): seq<nat> {
    if packed then [0] + Sums(index, 0) else index
  }

  function Window(buffer: Bytes, table: Option<SymTable>, start: nat, end: nat): Result<Bytes, TableError>
    requires table.Some? ==> Sound(table.value)
  {
    if end < start || end > |buffer| then Err(BadWindow(start, end))
    else if table.None? then Ok(buffer[start..end])
    else match DecodedFrom(table.value, buffer[start..end], 0)
      case Ok(s) => Ok(s)
      case Err(e) => Err(BadSymbols(e))
  }

  function Windows(buffer: Bytes, table: Option<SymTable>, offsets: seq<nat>): (ws: seq<Result<Bytes, TableError>>)
    requires |offsets| > 0 && (table.Some? ==> Sound(table.value))
    ensures |ws| == |offsets| - 1
  {
    seq(|offsets| - 1, i requires 0 <= i && i + 1 < |offsets| => Window(buffer, table, offsets[i], offsets[i + 1]))
  }

  // What a table of windows decodes to, once its symbols are known.
  function TableOver(buffer: Bytes, table: Option<SymTable>, offsets: seq<nat>): Result<StringTable, TableError>
    requires table.Some? ==> Sound(table.value)
  {
    if |offsets| < 2 then Ok(EMPTY_TABLE) else Tabled(Windows(buffer, table, offsets), TooLarge)
  }

  // `table` is what the stored symbol table, if there is one, parses to.
  predicate ParsesTo(symtab: Option<Bytes>, table: Option<SymTable>) {
    match symtab
    case None => table.None?
    case Some(bytes) =>
      && table.Some? && SpelledSymbols(bytes).Ok?
      && Holds(table.value, SpelledSymbols(bytes).value, FirstCode(Flag(bytes)))
  }

  method DecodeStringTable(buffer: Bytes, symtab: Option<Bytes>, index: seq<nat>, packed: bool)
    returns (r: Result<StringTable, TableError>, ghost table: Option<SymTable>)
    ensures |Offsets(index, packed)| < 2 ==> r == Ok(EMPTY_TABLE)
    ensures |Offsets(index, packed)| >= 2 ==>
              if symtab.Some? && SpelledSymbols(symtab.value).Err? then
                r == Err(BadSymbols(SpelledSymbols(symtab.value).error))
              else ParsesTo(symtab, table) && (table.Some? ==> Sound(table.value))
                   && r == TableOver(buffer, table, Offsets(index, packed))
  {
    table := None;
    var offsets := index;
    if packed {
      var sums := InclusivePrefixSum(index);
      offsets := [0] + sums;
    }
    if |offsets| < 2 {
      return Ok(EMPTY_TABLE), None;
    }
    var symbols: Option<SymTable> := None;
    if symtab.Some? {
      var parsed := Fsst.Parse(symtab.value);
      if parsed.Err? {
        return Err(BadSymbols(parsed.error)), None;
      }
      symbols := Some(parsed.value.0);
    }
    table := symbols;
    assert symbols.Some? ==> Sound(symbols.value);
    var ok := ReadWindows(buffer, symbols, offsets);
    return ok, table;
  }

  // Cuts the buffer at the offsets, decodes each piece and appends it.
  method ReadWindows(buffer: Bytes, symbols: Option<SymTable>, offsets: seq<nat>)
    returns (r: Result<StringTable, TableError>)
    requires |offsets| >= 2 && (symbols.Some? ==> Sound(symbols.value))
    ensures r == TableOver(buffer, symbols, offsets)
  {
    hide Sound, DecodedFrom;
    ghost var windows := Windows(buffer, symbols, offsets);
    var data: Bytes, marks: seq<nat> := [], [0];
    for i := 0 to |offsets| - 1
      invariant Tabled(windows[..i], TooLarge) == Ok(StringTable(data, marks))
    {
      assert windows[..i + 1][..i] == windows[..i] && windows[i] == Window(buffer, symbols, offsets[i], offsets[i + 1]);
      var start, end := offsets[i], offsets[i + 1];
      if Tabled(windows[..i + 1], TooLarge).Err? {
        TabledStops(windows, i + 1, TooLarge);
      }
      if end < start || end > |buffer| {
        return Err(BadWindow(start, end));
      }
      if symbols.Some? {
        var grown := Decode(symbols.value, buffer[start..end], data);
        if grown.Err? {
          return Err(BadSymbols(grown.error));
        }
        data := grown.value;
      } else {
        data := data + buffer[start..end];
      }
      if |data| > U32_MAX {
        return Err(TooLarge);
      }
      marks := marks + [|data|];
    }
    assert windows[..|offsets| - 1] == windows;
    return Ok(StringTable(data, marks));
  }

  // --- Packing an index ----------------------------------------------------------------------------------------

  predicate Ascending(offsets: seq<nat>) {
    && (forall i :: 0 < i < |offsets| ==> offsets[i - 1] <= offsets[i])
    && (forall i :: 0 <= i < |offsets| ==> offsets[i] <= U32_MAX)
  }

  // The differences between neighbours.
  function Deltas(offsets: seq<nat>): (r: seq<nat>)
    requires Ascending(offsets)
    ensures |r| == Max(0, |offsets| - 1)
  {
    if |offsets| < 2 then [] else [offsets[1] - offsets[0]] + Deltas(offsets[1..])
  }

  lemma {:induction false} SumsInvertDeltas(offsets: seq<nat>)
    requires offsets != [] && Ascending(offsets)
    ensures Sums(Deltas(offsets), offsets[0]) == offsets[1..]
    decreases |offsets|
  {
    if |offsets| >= 2 {
      SumsInvertDeltas(offsets[1..]);
      assert Deltas(offsets)[1..] == Deltas(offsets[1..]);
      assert offsets[1..] == [offsets[1]] + offsets[1..][1..];
    }
  }

  // An index packed as differences stands for the same table as the plain one.
  lemma PackedMeansPlain(buffer: Bytes, table: Option<SymTable>, offsets: seq<nat>)
    requires offsets != [] && offsets[0] == 0 && Ascending(offsets) && (table.Some? ==> Sound(table.value))
    ensures TableOver(buffer, table, Offsets(Deltas(offsets), true))
            == TableOver(buffer, table, Offsets(offsets, false))
  {
    SumsInvertDeltas(offsets);
    assert [0] + offsets[1..] == offsets;
  }

  // --- The table a writer stores -------------------------------------------------------------------------------

  // A window that spells a string: by itself, or by codes and escapes of the table.
  ghost predicate Spells(table: Option<SymTable>, window: Bytes, s: Bytes)
    requires table.Some? ==> Sound(table.value)
  {
    if table.None? then window == s
    else exists ps :: AllUsable(table.value, ps) && Compressed(ps) == window && Meant(table.value, ps) == s
  }

  ghost predicate AllSpell(table: Option<SymTable>, windows: seq<Bytes>, ss: seq<Bytes>)
    requires table.Some? ==> Sound(table.value)
  {
    |windows| == |ss| && forall i :: 0 <= i < |ss| ==> Spells(table, windows[i], ss[i])
  }

  lemma WindowDecodes(buffer: Bytes, table: Option<SymTable>, start: nat, end: nat, s: Bytes)
    requires table.Some? ==> Sound(table.value)
    requires start <= end <= |buffer| && Spells(table, buffer[start..end], s)
    ensures Window(buffer, table, start, end) == Ok(s)
  {
    if table.Some? {
      var ps :| AllUsable(table.value, ps) && Compressed(ps) == buffer[start..end] && Meant(table.value, ps) == s;
      DecodeInvertsCompression(table.value, ps);
    }
  }

  lemma StoredWindow(ws: seq<Bytes>, i: nat)
    requires i < |ws|
    ensures var t := TableOf(ws);
            && |t.offsets| == |ws| + 1 && t.offsets[i] <= t.offsets[i + 1] <= |t.data|
            && t.data[t.offsets[i]..t.offsets[i + 1]] == ws[i]
  {
    TableShape(ws);
    GetFindsEach(ws, i);
    hide TableOf, Concat;
  }

  // Windows stored one after another, each spelling its string, decode to the table of those strings.
  lemma StoredTableDecodes(table: Option<SymTable>, ws: seq<Bytes>, ss: seq<Bytes>)
    requires (table.Some? ==> Sound(table.value)) && AllSpell(table, ws, ss) && ss != []
    ensures TableOver(TableOf(ws).data, table, TableOf(ws).offsets)
            == if |Concat(ss)| <= U32_MAX then Ok(TableOf(ss)) else Err(TooLarge)
  {
    var t := TableOf(ws);
    TableShape(ws);
    var results := Windows(t.data, table, t.offsets);
    hide TableOf, Concat, Sound, Spells, Tabled;
    forall i | 0 <= i < |ss| ensures results[i] == Ok(ss[i]) {
      StoredWindow(ws, i);
      WindowDecodes(t.data, table, t.offsets[i], t.offsets[i + 1], ss[i]);
    }
    TabledOk(results, ss, TooLarge);
  }

  lemma {:induction false} OffsetsAscend(ws: seq<Bytes>)
    requires |Concat(ws)| <= U32_MAX
    ensures TableOf(ws).offsets != [] && TableOf(ws).offsets[0] == 0 && Ascending(TableOf(ws).offsets)
  {
    TableShape(ws);
    if ws != [] {
      ConcatGrows(ws, |ws| - 1);
      TableShape(ws[..|ws| - 1]);
      OffsetsAscend(ws[..|ws| - 1]);
    }
  }

  // The whole way: strings stored with a packed or a plain index come back, each under its own number.
  lemma StringsComeBack(table: Option<SymTable>, ws: seq<Bytes>, ss: seq<Bytes>, packed: bool)
    requires (table.Some? ==> Sound(table.value)) && AllSpell(table, ws, ss) && ss != []
    requires |Concat(ws)| <= U32_MAX && |Concat(ss)| <= U32_MAX
    ensures Ascending(TableOf(ws).offsets)
    ensures var index := if packed then Deltas(TableOf(ws).offsets) else TableOf(ws).offsets;
            && TableOver(TableOf(ws).data, table, Offsets(index, packed)) == Ok(TableOf(ss))
            && forall i :: 0 <= i < |ss| ==> Get(TableOf(ss), i) == Some(ss[i])
  {
    OffsetsAscend(ws);
    StoredTableDecodes(table, ws, ss);
    hide TableOf, Concat, Sound, AllSpell, TableOver, Ascending;
    PackedMeansPlain(TableOf(ws).data, table, TableOf(ws).offsets);
    forall i | 0 <= i < |ss| ensures Get(TableOf(ss), i) == Some(ss[i]) {
      GetFindsEach(ss, i);
    }
  }
}
