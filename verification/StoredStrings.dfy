/** A string table from the bytes a writer stores: exported symbols, compressed strings, packed or plain index. */
module StoredStrings {
  import opened Common
  import opened StringTables
  import opened Fsst
  import opened FsstExport
  import opened PackedTables

  // How the strings are stored: as they are, or by an exported symbol table with whatever bytes follow it.
  datatype Coding = Uncoded | Coded(low: Bytes, flag: byte, groups: seq<seq<Bytes>>, rest: Bytes)

  predicate Writable(coding: Coding) {
    coding.Coded? ==> |coding.low| == 4 && Grouped(coding.groups, coding.flag % 2 != 0)
  }

  function SymbolBytes(coding: Coding): Option<Bytes>
    requires Writable(coding)
  {
    match coding
    case Uncoded => None
    case Coded(low, flag, groups, rest) => Some(Exported(low, flag, groups) + rest)
  }

  // A code that stands for a symbol of the table; 255 announces a literal.
  predicate Names(table: seq<Bytes>, p: Piece) {
    p.Code? ==> p.code != 255 && NamedBy(table, p.code) != []
  }

  predicate AllName(table: seq<Bytes>, ps: seq<Piece>) {
    forall i :: 0 <= i < |ps| ==> Names(table, ps[i])
  }

  function Spelled(table: seq<Bytes>, ps: seq<Piece>): Bytes {
    if ps == [] then []
    else (if ps[0].Code? then NamedBy(table, ps[0].code) else [ps[0].b]) + Spelled(table, ps[1..])
  }

  function CodeBytes(ps: seq<Piece>): Bytes {
    if ps == [] then [] else (if ps[0].Code? then [ps[0].code] else [255, ps[0].b]) + CodeBytes(ps[1..])
  }

  // A stored window that stands for a string under the coding.
  ghost predicate StandsFor(coding: Coding, window: Bytes, s: Bytes)
    requires Writable(coding)
  {
    match coding
    case Uncoded => window == s
    case Coded(_, flag, groups, _) =>
      var table := ByCode(groups, flag % 2 != 0);
      exists ps :: AllName(table, ps) && CodeBytes(ps) == window && Spelled(table, ps) == s
  }

  ghost predicate AllStandFor(coding: Coding, windows: seq<Bytes>, ss: seq<Bytes>)
    requires Writable(coding)
  {
    |windows| == |ss| && forall i :: 0 <= i < |ss| ==> StandsFor(coding, windows[i], ss[i])
  }

  // A parsed table gives each code the meaning the exported symbols give it.
  lemma {:induction false} ParsedMeansTheSame(t: SymTable, groups: seq<seq<Bytes>>, zt: bool, ps: seq<Piece>)
    requires |groups| == 8 && Fsst.Holds(t, CodeOrder(groups), FirstCode(zt)) && AllName(ByCode(groups, zt), ps)
    ensures AllUsable(t, ps) && Meant(t, ps) == Spelled(ByCode(groups, zt), ps) && Compressed(ps) == CodeBytes(ps)
  {
    hide ByCode, CodeOrder, FirstCode, SymbolIn;
    if ps != [] {
      ParsedMeansTheSame(t, groups, zt, ps[1..]);
      assert Names(ByCode(groups, zt), ps[0]);
      if ps[0].Code? {
        CodesMeanTheirSymbols(t, groups, zt, ps[0].code);
      }
      assert ps == [ps[0]] + ps[1..];
      forall i | 0 <= i < |ps| ensures Usable(t, ps[i]) {
        if i > 0 {
          assert Usable(t, ps[1..][i - 1]);
        }
      }
    }
  }

  lemma WindowSpells(coding: Coding, table: Option<SymTable>, window: Bytes, s: Bytes)
    requires Writable(coding) && StandsFor(coding, window, s)
    requires ParsesTo(SymbolBytes(coding), table) && (table.Some? ==> Sound(table.value))
    ensures Spells(table, window, s)
  {
    if coding.Coded? {
      var groups, zt := coding.groups, coding.flag % 2 != 0;
      ParseInvertsExport(coding.low, coding.flag, groups, coding.rest);
      var ps :| AllName(ByCode(groups, zt), ps) && CodeBytes(ps) == window && Spelled(ByCode(groups, zt), ps) == s;
      hide CodeOrder, ByCode, Exported, SpelledSymbols, FirstCode, SymbolIn;
      ParsedMeansTheSame(table.value, groups, zt, ps);
    }
  }

  lemma AllWindowsSpell(coding: Coding, table: Option<SymTable>, ws: seq<Bytes>, ss: seq<Bytes>)
    requires Writable(coding) && AllStandFor(coding, ws, ss)
    requires ParsesTo(SymbolBytes(coding), table) && (table.Some? ==> Sound(table.value))
    ensures AllSpell(table, ws, ss)
  {
    hide StandsFor, Spells, ParsesTo, Writable;
    forall i | 0 <= i < |ss| ensures Spells(table, ws[i], ss[i]) {
      WindowSpells(coding, table, ws[i], ss[i]);
    }
  }

  lemma SymbolsParse(coding: Coding)
    requires Writable(coding) && coding.Coded?
    ensures SpelledSymbols(SymbolBytes(coding).value).Ok?
  {
    ParseInvertsExport(coding.low, coding.flag, coding.groups, coding.rest);
  }

  // From stored bytes to the accessor: string i comes back under number i, and there is nothing beyond.
  method ReadStored(coding: Coding, buffer: Bytes, index: seq<nat>, packed: bool, ghost ws: seq<Bytes>,
                    ghost ss: seq<Bytes>)
    returns (r: Result<StringTable, TableError>)
    requires Writable(coding) && AllStandFor(coding, ws, ss)
    requires |Concat(ws)| <= U32_MAX && |Concat(ss)| <= U32_MAX && Ascending(TableOf(ws).offsets)
    requires buffer == TableOf(ws).data
    requires index == if packed then Deltas(TableOf(ws).offsets) else TableOf(ws).offsets
    ensures r.Ok? && forall i: nat :: Get(r.value, i) == if i < |ss| then Some(ss[i]) else None
  {
    hide Writable, Ascending, Deltas, TableOf, Concat, ParsesTo, SpelledSymbols, TableOver;
    if coding.Coded? {
      SymbolsParse(coding);
    }
    ghost var table;
    r, table := DecodeStringTable(buffer, SymbolBytes(coding), index, packed);
    TableShape(ws);
    OffsetsPacked(ws, packed);
    if ss != [] {
      AllWindowsSpell(coding, table, ws, ss);
      StringsComeBack(table, ws, ss, packed);
    }
    forall i: nat ensures Get(r.value, i) == if i < |ss| then Some(ss[i]) else None {
      GetFindsEach(ss, i);
    }
  }

  lemma OffsetsPacked(ws: seq<Bytes>, packed: bool)
    requires Ascending(TableOf(ws).offsets)
    ensures |Offsets(if packed then Deltas(TableOf(ws).offsets) else TableOf(ws).offsets, packed)| == |ws| + 1
  {
    TableShape(ws);
  }
}
