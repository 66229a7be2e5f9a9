/** The exported form of an FSST symbol table, and that parsing inverts it. */
module FsstExport {
  import opened Common
  import opened LittleEndian
  import opened Fsst

  function Join(ss: seq<Bytes>): Bytes {
    if ss == [] then [] else ss[0] + Join(ss[1..])
  }

  function LensOf(ss: seq<Bytes>): (ls: seq<nat>)
    ensures |ls| == |ss|
  {
    seq(|ss|, i requires 0 <= i < |ss| => |ss[i]|)
  }

  // Symbols grouped by length: group s holds those of length s + 1.
  predicate Grouped(groups: seq<seq<Bytes>>, zeroTerminated: bool) {
    && |groups| == 8
    && (forall s :: 0 <= s < 8 ==> OfLength(groups[s], s + 1))
    && (forall s :: 0 <= s < 8 ==> |groups[s]| <= 255)
    && (zeroTerminated ==> |groups[0]| <= 254)
    && (if zeroTerminated then 1 else 0) + |CodeOrder(groups)| <= 256
  }

  predicate OfLength(ss: seq<Bytes>, n: nat) {
    forall i :: 0 <= i < |ss| ==> |ss[i]| == n
  }

  // The order codes are given out in: lengths 2 to 8, then 1.
  function CodeOrder(groups: seq<seq<Bytes>>): seq<Bytes>
    requires |groups| == 8
  {
    groups[1] + (groups[2] + (groups[3] + (groups[4] + (groups[5] + (groups[6] + (groups[7] + groups[0]))))))
  }

  // What each code stands for, from code 0 on; a zero-terminated table keeps code 0 for the empty string.
  function ByCode(groups: seq<seq<Bytes>>, zeroTerminated: bool): seq<Bytes>
    requires |groups| == 8
  {
    var reserved: seq<Bytes> := if zeroTerminated then [[]] else [];
    reserved + CodeOrder(groups)
  }

  // The same order as the parser's loop goes through it.
  function InOrder(groups: seq<seq<Bytes>>, l: nat): seq<Bytes>
    requires |groups| == 8 && 1 <= l <= 9
    decreases 9 - l
  {
    if l == 9 then [] else groups[Slot(l)] + InOrder(groups, l + 1)
  }

  function Histogram(groups: seq<seq<Bytes>>, zeroTerminated: bool): Bytes
    requires Grouped(groups, zeroTerminated)
  {
    seq(8, s requires 0 <= s < 8 => |groups[s]| + if zeroTerminated && s == 0 then 1 else 0)
  }

  function Exported(low: Bytes, flag: byte, groups: seq<seq<Bytes>>): Bytes
    requires |low| == 4 && Grouped(groups, flag % 2 != 0)
  {
    low + [0x0A, 0x14, 0x34, 0x01] + [flag] + Histogram(groups, flag % 2 != 0) + Join(CodeOrder(groups))
  }

  lemma LoopOrder(groups: seq<seq<Bytes>>)
    requires |groups| == 8
    ensures InOrder(groups, 1) == CodeOrder(groups)
  {
    assert InOrder(groups, 9) == [];
    hide InOrder;
    var g8 := groups[0];
    var g7 := groups[7] + g8;
    var g6 := groups[6] + g7;
    var g5 := groups[5] + g6;
    LoopStep(groups, 8, []);
    assert groups[0] + [] == g8;
    LoopStep(groups, 7, g8);
    LoopStep(groups, 6, g7);
    LoopStep(groups, 5, g6);
    LoopStep(groups, 4, g5);
    LoopStep(groups, 3, groups[4] + g5);
    LoopStep(groups, 2, groups[3] + (groups[4] + g5));
    LoopStep(groups, 1, groups[2] + (groups[3] + (groups[4] + g5)));
  }

  lemma LoopStep(groups: seq<seq<Bytes>>, l: nat, rest: seq<Bytes>)
    requires |groups| == 8 && 1 <= l <= 8 && InOrder(groups, l + 1) == rest
    ensures InOrder(groups, l) == groups[if l == 8 then 0 else l] + rest
  {
  }

  lemma {:induction false} CutInvertsJoin(bytes: Bytes, pos: nat, ss: seq<Bytes>, code: nat)
    requires pos <= |bytes| && Join(ss) <= bytes[pos..] && code + |ss| <= CODES
    ensures Cut(bytes, pos, LensOf(ss), code) == Ok(ss)
    decreases |ss|
  {
    if ss != [] {
      var s := ss[0];
      var tail := bytes[pos..];
      assert tail[..|s|] == s && bytes[pos..pos + |s|] == s;
      assert bytes[pos + |s|..] == tail[|s|..] && Join(ss[1..]) == Join(ss)[|s|..];
      CutInvertsJoin(bytes, pos + |s|, ss[1..], code + 1);
      assert LensOf(ss)[1..] == LensOf(ss[1..]) && LensOf(ss)[0] == |s|;
      assert [s] + ss[1..] == ss;
    }
  }

  lemma StoredIsCount(groups: seq<seq<Bytes>>, zt: bool, slot: nat)
    requires Grouped(groups, zt) && slot < 8
    ensures Stored(Histogram(groups, zt), zt, slot) == |groups[slot]| && OfLength(groups[slot], slot + 1)
  {
    hide InOrder;
  }

  lemma LensOfGroup(g: seq<Bytes>, n: nat, rest: seq<Bytes>)
    requires OfLength(g, n)
    ensures LensOf(g + rest) == seq(|g|, _ => n) + LensOf(rest)
  {
  }

  lemma {:induction false} LengthsListed(groups: seq<seq<Bytes>>, zt: bool, l: nat)
    requires |groups| == 8 && Grouped(groups, zt) && 1 <= l <= 9
    ensures Lengths(Histogram(groups, zt), zt, l) == LensOf(InOrder(groups, l))
    decreases 9 - l
  {
    hide Grouped, Histogram, Stored, OfLength;
    if l < 9 {
      LengthsListed(groups, zt, l + 1);
      StoredIsCount(groups, zt, Slot(l));
      LensOfGroup(groups[Slot(l)], Slot(l) + 1, InOrder(groups, l + 1));
    }
  }

  lemma Parts(low: Bytes, version: Bytes, flag: byte, histo: Bytes, body: Bytes)
    requires |low| == 4 && |version| == 4 && |histo| == 8
    ensures var b := low + version + [flag] + histo + body;
            b[4..8] == version && b[8] == flag && b[9..17] == histo && b[17..] == body
  {
  }

  lemma ExportPrefix(low: Bytes, flag: byte, groups: seq<seq<Bytes>>, rest: Bytes)
    requires |low| == 4 && |groups| == 8 && Grouped(groups, flag % 2 != 0)
    ensures Exported(low, flag, groups) + rest
            == low + VersionBytes() + [flag] + Histogram(groups, flag % 2 != 0) + (Join(CodeOrder(groups)) + rest)
  {
    hide Histogram, CodeOrder, Join, Grouped;
    Associate(low + VersionBytes() + [flag] + Histogram(groups, flag % 2 != 0), Join(CodeOrder(groups)), rest);
  }

  function VersionBytes(): (b: Bytes)
    ensures |b| == 4
  {
    [0x0A, 0x14, 0x34, 0x01]
  }

  lemma VersionBack()
    ensures Le(VersionBytes()) == FSST_VERSION
  {
    var b := VersionBytes();
    assert b[1..] == [0x14, 0x34, 0x01] && b[1..][1..] == [0x34, 0x01] && b[1..][1..][1..] == [0x01];
    assert b[1..][1..][1..][1..] == [];
    assert Le(b[1..][1..][1..]) == 1;
    assert Le(b[1..][1..]) == 0x134;
    assert Le(b[1..]) == 0x13414;
  }

  lemma Associate(a: Bytes, b: Bytes, c: Bytes)
    ensures (a + b) + c == a + (b + c)
  {
  }

  lemma ExportParts(low: Bytes, flag: byte, groups: seq<seq<Bytes>>, rest: Bytes)
    requires |low| == 4 && |groups| == 8 && Grouped(groups, flag % 2 != 0)
    ensures var bytes := Exported(low, flag, groups) + rest;
            && |bytes| >= HEADER && bytes[4..8] == VersionBytes() && bytes[8] == flag
            && bytes[9..17] == Histogram(groups, flag % 2 != 0) && Join(CodeOrder(groups)) <= bytes[HEADER..]
  {
    ExportPrefix(low, flag, groups, rest);
    var version, histo, body := VersionBytes(), Histogram(groups, flag % 2 != 0), Join(CodeOrder(groups));
    assert |histo| == 8;
    hide Exported, Histogram, CodeOrder, Join, VersionBytes, Grouped;
    Parts(low, version, flag, histo, body + rest);
  }

  lemma SpelledFrom(bytes: Bytes, zt: bool, histo: Bytes, ss: seq<Bytes>)
    requires |bytes| >= HEADER && Le(bytes[4..8]) == FSST_VERSION && Flag(bytes) == zt && bytes[9..17] == histo
    requires Cut(bytes, HEADER, Lengths(histo, zt, 1), FirstCode(zt)) == Ok(ss)
    ensures SpelledSymbols(bytes) == Ok(ss)
  {
  }

  // Every exported table is parsed back, whatever follows it: each symbol under the code it was given.
  lemma ParseInvertsExport(low: Bytes, flag: byte, groups: seq<seq<Bytes>>, rest: Bytes)
    requires |low| == 4 && Grouped(groups, flag % 2 != 0)
    ensures var bytes := Exported(low, flag, groups) + rest;
            && |bytes| >= HEADER && Flag(bytes) == (flag % 2 != 0)
            && SpelledSymbols(bytes) == Ok(CodeOrder(groups))
  {
    var zt := flag % 2 != 0;
    var bytes := Exported(low, flag, groups) + rest;
    ExportParts(low, flag, groups, rest);
    VersionBack();
    LoopOrder(groups);
    assert Flag(bytes) == zt && FirstCode(zt) + |CodeOrder(groups)| <= CODES && |groups| == 8;
    hide Exported, Histogram, CodeOrder, InOrder, Cut, Join, Lengths, VersionBytes, Le, Flag, FirstCode, Grouped,
      LensOf;
    LengthsListed(groups, zt, 1);
    CutInvertsJoin(bytes, HEADER, CodeOrder(groups), FirstCode(zt));
    SpelledFrom(bytes, zt, Histogram(groups, zt), CodeOrder(groups));
  }

  function NamedBy(table: seq<Bytes>, code: nat): Bytes {
    if code < |table| then table[code] else []
  }

  // A table that holds the parsed symbols gives every code its meaning, and none to the others.
  lemma CodesMeanTheirSymbols(t: SymTable, groups: seq<seq<Bytes>>, zeroTerminated: bool, code: nat)
    requires |groups| == 8 && Holds(t, CodeOrder(groups), FirstCode(zeroTerminated)) && code < 256
    ensures Symbol(t, code) == NamedBy(ByCode(groups, zeroTerminated), code)
  {
    hide CodeOrder, Symbol;
  }

  function Sample(): (groups: seq<seq<Bytes>>)
    ensures |groups| == 8 && groups[0] == [[120], [121]] && groups[1] == [[97, 98]]
    ensures forall s :: 2 <= s < 8 ==> groups[s] == []
  {
    seq(8, s => if s == 0 then [[120], [121]] else if s == 1 then [[97, 98]] else [])
  }

  lemma SampleOrder()
    ensures CodeOrder(Sample()) == [[97, 98], [120], [121]] && Grouped(Sample(), false)
    ensures Histogram(Sample(), false) == [2, 1, 0, 0, 0, 0, 0, 0]
  {
    hide Sample;
    var groups := Sample();
    assert CodeOrder(groups) == groups[1] + groups[0];
  }

  lemma SampleBytes(rest: Bytes)
    ensures Grouped(Sample(), false)
    ensures Exported([0, 0, 0, 0], 0, Sample()) + rest
            == [0, 0, 0, 0, 0x0A, 0x14, 0x34, 0x01, 0, 2, 1, 0, 0, 0, 0, 0, 0, 97, 98, 120, 121] + rest
  {
    hide Sample, Grouped, CodeOrder, Histogram, Join, Exported;
    var zeros: Bytes := [0, 0, 0, 0];
    SampleOrder();
    ExportPrefix(zeros, 0, Sample(), rest);
    JoinThree([97, 98], [120], [121]);
    SampleConcat(zeros, rest);
  }

  lemma SampleConcat(zeros: Bytes, rest: Bytes)
    requires zeros == [0, 0, 0, 0]
    ensures zeros + VersionBytes() + [0] + [2, 1, 0, 0, 0, 0, 0, 0] + (([97, 98] + [120] + [121]) + rest)
            == [0, 0, 0, 0, 0x0A, 0x14, 0x34, 0x01, 0, 2, 1, 0, 0, 0, 0, 0, 0, 97, 98, 120, 121] + rest
  {
  }

  // Three symbols as an encoder exports them: the pair has the first code, the single bytes those behind it.
  lemma PairsBeforeSingles(rest: Bytes)
    ensures var pair: Bytes, x: Bytes, y: Bytes := [97, 98], [120], [121];
            SpelledSymbols([0, 0, 0, 0, 0x0A, 0x14, 0x34, 0x01, 0, 2, 1, 0, 0, 0, 0, 0, 0, 97, 98, 120, 121] + rest)
            == Ok([pair, x, y])
  {
    hide *;
    SampleOrder();
    SampleBytes(rest);
    ParseInvertsExport([0, 0, 0, 0], 0, Sample(), rest);
  }

  lemma JoinThree(a: Bytes, b: Bytes, c: Bytes)
    ensures Join([a, b, c]) == a + b + c
  {
    assert [a, b, c][1..] == [b, c] && [b, c][1..] == [c] && [c][1..] == [];
    assert Join([c]) == c;
    assert Join([b, c]) == b + c;
  }
}
