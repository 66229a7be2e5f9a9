/** FSST: strings compressed by one-byte codes for short symbols. */
module Fsst {
  import opened Common
  import opened LittleEndian

  const ESCAPE: byte := 255
  const FSST_VERSION: nat := 20_190_218
  const HEADER: nat := 17
  const CODES: nat := 256

  datatype FsstError = ShortHeader | BadVersion | TooManySymbols | TruncatedSymbols | EscapeAtEnd | UnusedSymbol

  // --- The symbol table ----------------------------------------------------------------------------------------

  datatype Span = Span(start: nat, len: nat)

  // Symbol bytes in one buffer, and where each code's symbol lies in it.
  datatype SymTable = SymTable(symbols: Bytes, spans: seq<Span>, zeroTerminated: bool)

  predicate Sound(t: SymTable) {
    |t.spans| == CODES && forall c :: 0 <= c < CODES ==>
      t.spans[c].start + t.spans[c].len <= |t.symbols| && t.spans[c].len <= 8
  }

  function Symbol(t: SymTable, code: nat): Bytes
    requires Sound(t) && code < CODES
  {
    t.symbols[t.spans[code].start..t.spans[code].start + t.spans[code].len]
  }

  // --- Parsing an exported table -------------------------------------------------------------------------------

  // Slots in the order their symbols are stored: lengths 2 to 8, then 1.
  function Slot(l: nat): (s: nat)
    ensures s < 8
  {
    l % 8
  }

  // In zero-terminated mode one of the one-byte symbols is the empty string, which is not stored.
  function Stored(histo: Bytes, zeroTerminated: bool, slot: nat): nat
    requires slot < |histo|
  {
    if zeroTerminated && slot == 0 then Max(0, histo[0] as int - 1) else histo[slot]
  }

  // The lengths of the stored symbols, slot by slot from the l-th on.
  function Lengths(histo: Bytes, zeroTerminated: bool, l: nat): seq<nat>
    requires |histo| == 8 && 1 <= l <= 9
    decreases 9 - l
  {
    if l == 9 then []
    else seq(Stored(histo, zeroTerminated, Slot(l)), _ => Slot(l) + 1) + Lengths(histo, zeroTerminated, l + 1)
  }

  // Cuts the input into symbols of the given lengths, codes counted from `code`.
  function Cut(bytes: Bytes, pos: nat, lens: seq<nat>, code: nat): Result<seq<Bytes>, FsstError>
    decreases |lens|
  {
    if lens == [] then Ok([])
    else if code >= CODES then Err(TooManySymbols)
    else if pos + lens[0] > |bytes| then Err(TruncatedSymbols)
    else match Cut(bytes, pos + lens[0], lens[1..], code + 1)
      case Err(e) => Err(e)
      case Ok(rest) => Ok([bytes[pos..pos + lens[0]]] + rest)
  }

  function Flag(bytes: Bytes): bool
    requires |bytes| >= HEADER
  {
    bytes[8] % 2 != 0
  }

  function FirstCode(zeroTerminated: bool): nat {
    if zeroTerminated then 1 else 0
  }

  // The symbols an exported table spells, in code order.
  function SpelledSymbols(bytes: Bytes): Result<seq<Bytes>, FsstError> {
    if |bytes| < HEADER then Err(ShortHeader)
    else if Le(bytes[4..8]) != FSST_VERSION then Err(BadVersion)
    else Cut(bytes, HEADER, Lengths(bytes[9..17], Flag(bytes), 1), FirstCode(Flag(bytes)))
  }

  function TotalLen(ss: seq<Bytes>): nat {
    if ss == [] then 0 else |ss[0]| + TotalLen(ss[1..])
  }

  // The code's symbol among those stored; codes without one decode to nothing.
  function SymbolIn(ss: seq<Bytes>, first: nat, code: nat): Bytes {
    if first <= code < first + |ss| then ss[code - first] else []
  }

  predicate Holds(t: SymTable, ss: seq<Bytes>, first: nat) {
    Sound(t) && forall c :: 0 <= c < CODES ==> Symbol(t, c) == SymbolIn(ss, first, c)
  }

  // One more symbol, under the next code.
  function With(t: SymTable, code: nat, s: Bytes): SymTable
    requires |t.spans| == CODES && code < CODES
  {
    SymTable(t.symbols + s, t.spans[code := Span(|t.symbols|, |s|)], t.zeroTerminated)
  }

  lemma WithHolds(t: SymTable, ss: seq<Bytes>, first: nat, s: Bytes)
    requires Holds(t, ss, first) && first + |ss| < CODES && |s| <= 8
    ensures Holds(With(t, first + |ss|, s), ss + [s], first)
    ensures With(t, first + |ss|, s).zeroTerminated == t.zeroTerminated
  {
    var t' := With(t, first + |ss|, s);
    forall c | 0 <= c < CODES
      ensures t'.spans[c].start + t'.spans[c].len <= |t'.symbols| && t'.spans[c].len <= 8
    {
    }
    forall c | 0 <= c < CODES ensures Symbol(t', c) == SymbolIn(ss + [s], first, c) {
      if c != first + |ss| {
        assert Symbol(t', c) == Symbol(t, c);
      }
    }
  }

  function Behind(done: seq<Bytes>, rest: Result<seq<Bytes>, FsstError>): Result<seq<Bytes>, FsstError> {
    match rest
    case Ok(ss) => Ok(done + ss)
    case Err(e) => Err(e)
  }

  // One step of the cut, behind the symbols already cut.
  lemma CutStep(bytes: Bytes, pos: nat, len: nat, rest: seq<nat>, code: nat, done: seq<Bytes>)
    ensures Behind(done, Cut(bytes, pos, [len] + rest, code))
            == if code >= CODES then Err(TooManySymbols)
               else if pos + len > |bytes| then Err(TruncatedSymbols)
               else Behind(done + [bytes[pos..pos + len]], Cut(bytes, pos + len, rest, code + 1))
  {
    assert ([len] + rest)[1..] == rest;
    if code < CODES && pos + len <= |bytes| {
      var head := [bytes[pos..pos + len]];
      var cut := Cut(bytes, pos + len, rest, code + 1);
      if cut.Ok? {
        assert done + (head + cut.value) == (done + head) + cut.value;
      }
    }
  }

  lemma Unparsed(bytes: Bytes, pos: nat, lens: seq<nat>, code: nat)
    ensures Behind([], Cut(bytes, pos, lens, code)) == Cut(bytes, pos, lens, code)
  {
    var r := Cut(bytes, pos, lens, code);
    if r.Ok? {
      assert [] + r.value == r.value;
    }
  }

  // What is left of a slot's lengths, and of the slots behind it.
  function Remaining(histo: Bytes, zeroTerminated: bool, l: nat, n: nat): seq<nat>
    requires |histo| == 8 && 1 <= l <= 8
  {
    seq(n, _ => Slot(l) + 1) + Lengths(histo, zeroTerminated, l + 1)
  }

  lemma RemainingStep(histo: Bytes, zeroTerminated: bool, l: nat, n: nat)
    requires |histo| == 8 && 1 <= l <= 8
    ensures n > 0 ==>
              Remaining(histo, zeroTerminated, l, n)
              == [Slot(l) + 1] + Remaining(histo, zeroTerminated, l, n - 1)
    ensures Remaining(histo, zeroTerminated, l, 0) == Lengths(histo, zeroTerminated, l + 1)
    ensures Remaining(histo, zeroTerminated, l, Stored(histo, zeroTerminated, Slot(l)))
            == Lengths(histo, zeroTerminated, l)
  {
  }

  // Parses a table off the front of the input and says how many bytes it took.
  method Parse(bytes: Bytes) returns (r: Result<(SymTable, nat), FsstError>)
    ensures match SpelledSymbols(bytes)
            case Err(e) => r == Err(e)
            case Ok(ss) =>
              && r.Ok? && Holds(r.value.0, ss, FirstCode(Flag(bytes))) && r.value.0.zeroTerminated == Flag(bytes)
              && r.value.1 == HEADER + TotalLen(ss)
  {
    hide Cut, Lengths, Sound, Symbol, SymbolIn, Holds, Remaining, SpelledSymbols, TotalLen, Stored, Slot, With,
      Behind, FirstCode, Flag, Le;
    Spelled(bytes);
    if |bytes| < HEADER {
      return Err(ShortHeader);
    }
    if Le(bytes[4..8]) != FSST_VERSION {
      return Err(BadVersion);
    }
    var zt := Flag(bytes);
    var histo := bytes[9..17];
    var code: nat := FirstCode(zt);
    var t := SymTable([], seq(CODES, _ => Span(0, 0)), zt);
    var pos: nat := HEADER;
    ghost var ss: seq<Bytes> := [];
    ghost var spelled := SpelledSymbols(bytes);
    EmptyHolds(t, code);
    Unparsed(bytes, pos, Lengths(histo, zt, 1), code);
    for l := 1 to 9
      invariant spelled == Behind(ss, Cut(bytes, pos, Lengths(histo, zt, l), code))
      invariant t.zeroTerminated == zt && Holds(t, ss, FirstCode(zt))
      invariant code == FirstCode(zt) + |ss| && pos == HEADER + TotalLen(ss)
    {
      var symbolLen := Slot(l) + 1;
      var count := Stored(histo, zt, Slot(l));
      RemainingStep(histo, zt, l, count);
      for i := 0 to count
        invariant spelled == Behind(ss, Cut(bytes, pos, Remaining(histo, zt, l, count - i), code))
        invariant t.zeroTerminated == zt && Holds(t, ss, FirstCode(zt))
        invariant code == FirstCode(zt) + |ss| && pos == HEADER + TotalLen(ss)
      {
        RemainingStep(histo, zt, l, count - i);
        ghost var rest := Remaining(histo, zt, l, count - i - 1);
        CutStep(bytes, pos, symbolLen, rest, code, ss);
        if code >= CODES {
          return Err(TooManySymbols);
        }
        var end := pos + symbolLen;
        if end > |bytes| {
          return Err(TruncatedSymbols);
        }
        var s := bytes[pos..end];
        HasSpans(t, ss, FirstCode(zt));
        WithHolds(t, ss, FirstCode(zt), s);
        TotalLenAppend(ss, s);
        t := With(t, code, s);
        ss := ss + [s];
        code := code + 1;
        pos := end;
      }
      RemainingStep(histo, zt, l, 0);
    }
    NothingLeft(bytes, pos, histo, zt, code, ss);
    return Ok((t, pos));
  }

  lemma Spelled(bytes: Bytes)
    ensures SpelledSymbols(bytes)
            == if |bytes| < HEADER then Err(ShortHeader)
               else if Le(bytes[4..8]) != FSST_VERSION then Err(BadVersion)
               else Cut(bytes, HEADER, Lengths(bytes[9..17], Flag(bytes), 1), FirstCode(Flag(bytes)))
  {
  }

  lemma EmptyHolds(t: SymTable, first: nat)
    requires t.symbols == [] && t.spans == seq(CODES, _ => Span(0, 0))
    ensures Holds(t, [], first) && TotalLen([]) == 0
  {
  }

  lemma HasSpans(t: SymTable, ss: seq<Bytes>, first: nat)
    requires Holds(t, ss, first)
    ensures |t.spans| == CODES
  {
  }

  lemma NothingLeft(bytes: Bytes, pos: nat, histo: Bytes, zt: bool, code: nat, ss: seq<Bytes>)
    requires |histo| == 8
    ensures Behind(ss, Cut(bytes, pos, Lengths(histo, zt, 9), code)) == Ok(ss)
  {
    assert ss + [] == ss;
  }

  lemma {:induction false} TotalLenAppend(ss: seq<Bytes>, s: Bytes)
    ensures TotalLen(ss + [s]) == TotalLen(ss) + |s|
  {
    if ss == [] {
      assert (ss + [s])[1..] == [];
    } else {
      TotalLenAppend(ss[1..], s);
      assert (ss + [s])[1..] == ss[1..] + [s];
    }
  }

  // --- Decoding ------------------------------------------------------------------------------------------------

  // What codes from position i on decode to.
  function DecodedFrom(t: SymTable, c: Bytes, i: nat): Result<Bytes, FsstError>
    requires Sound(t)
    decreases |c| - i
  {
    if i >= |c| then Ok([])
    else if c[i] == ESCAPE then
      if i + 1 >= |c| then Err(EscapeAtEnd) else Ahead([c[i + 1]], DecodedFrom(t, c, i + 2))
    else if Symbol(t, c[i]) == [] then Err(UnusedSymbol)
    else Ahead(Symbol(t, c[i]), DecodedFrom(t, c, i + 1))
  }

  function Ahead(s: Bytes, r: Result<Bytes, FsstError>): Result<Bytes, FsstError> {
    match r
    case Ok(rest) => Ok(s + rest)
    case Err(e) => Err(e)
  }

  lemma AheadTwice(a: Bytes, b: Bytes, r: Result<Bytes, FsstError>)
    ensures Ahead(a, Ahead(b, r)) == Ahead(a + b, r) && Ahead([], r) == r
  {
    if r.Ok? {
      assert a + (b + r.value) == (a + b) + r.value;
      assert [] + r.value == r.value;
    }
  }

  // Appends the decoded string to what is there.
  method Decode(t: SymTable, compressed: Bytes, out: Bytes) returns (r: Result<Bytes, FsstError>)
    requires Sound(t)
    ensures r == Ahead(out, DecodedFrom(t, compressed, 0))
  {
    hide Sound, Symbol;
    var i := 0;
    var grown := out;
    while i < |compressed|
      invariant i <= |compressed|
      invariant Ahead(out, DecodedFrom(t, compressed, 0)) == Ahead(grown, DecodedFrom(t, compressed, i))
    {
      var b := compressed[i];
      var symbol: Bytes;
      if b == ESCAPE {
        if i + 1 >= |compressed| {
          return Err(EscapeAtEnd);
        }
        symbol := [compressed[i + 1]];
        i := i + 2;
      } else {
        symbol := Symbol(t, b);
        if symbol == [] {
          return Err(UnusedSymbol);
        }
        i := i + 1;
      }
      AheadTwice(grown, symbol, DecodedFrom(t, compressed, i));
      grown := grown + symbol;
    }
    assert grown + [] == grown;
    return Ok(grown);
  }

  // A compressed string is codes and escaped literals in any order.
  datatype Piece = Code(code: byte) | Literal(b: byte)

  predicate Usable(t: SymTable, p: Piece)
    requires Sound(t)
  {
    p.Code? ==> p.code != ESCAPE && Symbol(t, p.code) != []
  }

  predicate AllUsable(t: SymTable, ps: seq<Piece>)
    requires Sound(t)
  {
    forall i :: 0 <= i < |ps| ==> Usable(t, ps[i])
  }

  function PieceBytes(p: Piece): Bytes {
    if p.Code? then [p.code] else [ESCAPE, p.b]
  }

  function PieceMeant(t: SymTable, p: Piece): Bytes
    requires Sound(t)
  {
    if p.Code? then Symbol(t, p.code) else [p.b]
  }

  function Compressed(ps: seq<Piece>): Bytes {
    if ps == [] then [] else PieceBytes(ps[0]) + Compressed(ps[1..])
  }

  function Meant(t: SymTable, ps: seq<Piece>): Bytes
    requires Sound(t)
  {
    if ps == [] then [] else PieceMeant(t, ps[0]) + Meant(t, ps[1..])
  }

  lemma {:induction false} DecodedSuffix(t: SymTable, c: Bytes, i: nat, k: nat)
    requires Sound(t) && i <= k <= |c|
    ensures DecodedFrom(t, c, k) == DecodedFrom(t, c[i..], k - i)
    decreases |c| - k
  {
    hide Sound, Symbol;
    if k < |c| {
      assert c[i..][k - i] == c[k];
      DecodedSuffix(t, c, i, k + 1);
      if k + 1 < |c| {
        assert c[i..][k + 1 - i] == c[k + 1];
        DecodedSuffix(t, c, i, k + 2);
      }
    }
  }

  lemma OnePiece(t: SymTable, p: Piece, rest: Bytes)
    requires Sound(t) && Usable(t, p)
    ensures DecodedFrom(t, PieceBytes(p) + rest, 0) == Ahead(PieceMeant(t, p), DecodedFrom(t, rest, 0))
  {
    var c := PieceBytes(p) + rest;
    assert c[|PieceBytes(p)|..] == rest;
    hide Sound, Symbol;
    DecodedSuffix(t, c, |PieceBytes(p)|, |PieceBytes(p)|);
  }

  // Decoding splits at every boundary between codes.
  lemma {:induction false} DecodeSplits(t: SymTable, ps: seq<Piece>, rest: Bytes)
    requires Sound(t) && AllUsable(t, ps)
    ensures DecodedFrom(t, Compressed(ps) + rest, 0) == Ahead(Meant(t, ps), DecodedFrom(t, rest, 0))
    decreases |ps|
  {
    hide Sound, Usable, PieceBytes, PieceMeant, DecodedFrom;
    if ps == [] {
      assert [] + rest == rest;
      AheadTwice([], [], DecodedFrom(t, rest, 0));
    } else {
      assert Usable(t, ps[0]);
      assert Compressed(ps) + rest == PieceBytes(ps[0]) + (Compressed(ps[1..]) + rest);
      OnePiece(t, ps[0], Compressed(ps[1..]) + rest);
      DecodeSplits(t, ps[1..], rest);
      AheadTwice(PieceMeant(t, ps[0]), Meant(t, ps[1..]), DecodedFrom(t, rest, 0));
    }
  }

  // Decoding inverts every way of spelling a string by codes and escapes.
  lemma DecodeInvertsCompression(t: SymTable, ps: seq<Piece>)
    requires Sound(t) && AllUsable(t, ps)
    ensures DecodedFrom(t, Compressed(ps), 0) == Ok(Meant(t, ps))
  {
    hide Sound, Symbol, AllUsable, Meant, Compressed;
    DecodeSplits(t, ps, []);
    assert Compressed(ps) + [] == Compressed(ps) && Meant(t, ps) + [] == Meant(t, ps);
    assert DecodedFrom(t, [], 0) == Ok([]);
  }

  // And whatever decodes at all is spelled that way: there is no other.
  lemma {:induction false} DecodableIsCompressed(t: SymTable, c: Bytes) returns (ps: seq<Piece>)
    requires Sound(t) && DecodedFrom(t, c, 0).Ok?
    ensures AllUsable(t, ps) && Compressed(ps) == c && DecodedFrom(t, c, 0) == Ok(Meant(t, ps))
    decreases |c|
  {
    if c == [] {
      ps := [];
    } else {
      var p := FirstPiece(t, c);
      var n := |PieceBytes(p)|;
      hide Sound, Symbol, DecodedFrom, PieceBytes, PieceMeant, Usable;
      var rest := DecodableIsCompressed(t, c[n..]);
      ps := [p] + rest;
      assert ps[1..] == rest;
    }
  }

  lemma FirstPiece(t: SymTable, c: Bytes) returns (p: Piece)
    requires Sound(t) && c != [] && DecodedFrom(t, c, 0).Ok?
    ensures Usable(t, p) && 0 < |PieceBytes(p)| <= |c| && c == PieceBytes(p) + c[|PieceBytes(p)|..]
    ensures DecodedFrom(t, c, 0) == Ahead(PieceMeant(t, p), DecodedFrom(t, c[|PieceBytes(p)|..], 0))
    ensures DecodedFrom(t, c[|PieceBytes(p)|..], 0).Ok?
  {
    p := if c[0] == ESCAPE then Literal(c[1]) else Code(c[0]);
    hide Sound, Symbol;
    DecodedSuffix(t, c, |PieceBytes(p)|, |PieceBytes(p)|);
  }

  // No string grows more than eightfold.
  lemma {:induction false} AtMostEightfold(t: SymTable, c: Bytes, i: nat)
    requires Sound(t) && i <= |c| && DecodedFrom(t, c, i).Ok?
    ensures |DecodedFrom(t, c, i).value| <= 8 * (|c| - i)
    decreases |c| - i
  {
    if i < |c| {
      AtMostEightfold(t, c, if c[i] == ESCAPE then i + 2 else i + 1);
    }
  }

  // Code 0 of a zero-terminated table is refused wherever decoding comes to it: it stands for the empty string, and
  // empty symbols do not decode.
  lemma ZeroCodeRefused(t: SymTable, ss: seq<Bytes>, ps: seq<Piece>, rest: Bytes)
    requires Holds(t, ss, FirstCode(true)) && AllUsable(t, ps)
    ensures DecodedFrom(t, Compressed(ps) + ([0] + rest), 0) == Err(UnusedSymbol)
  {
    assert Symbol(t, 0) == SymbolIn(ss, FirstCode(true), 0);
    assert DecodedFrom(t, [0] + rest, 0) == Err(UnusedSymbol);
    hide Holds, DecodedFrom, AllUsable;
    DecodeSplits(t, ps, [0] + rest);
  }
}
