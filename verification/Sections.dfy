/** Walking an image section by section. */
module Sections {
  import opened Common
  import opened Header
  import D = Detect

  datatype Record = Record(offset: nat, header: SectionHeader)

  // The header read at `cursor`, or why the walk stops there.
  function HeaderAt(source: Bytes, cursor: nat): Result<SectionHeader, Error>
    requires cursor < |source|
  {
    if cursor + HEADER_LEN > |source| then Err(TruncatedHeader(cursor))
    else match Parse(source[cursor..cursor + HEADER_LEN], cursor)
      case Err(e) => Err(e)
      case Ok(h) =>
        if cursor + SectionLen(h) > U64_MAX || cursor + SectionLen(h) > |source| then
          Err(TruncatedSection(h.number, cursor))
        else Ok(h)
  }

  function Walk(source: Bytes, cursor: nat): Result<seq<Record>, Error>
    decreases |source| - cursor
  {
    if cursor >= |source| then Ok([])
    else match HeaderAt(source, cursor)
      case Err(e) => Err(e)
      case Ok(h) => Prepend([Record(cursor, h)], Walk(source, cursor + SectionLen(h)))
  }

  function Prepend(front: seq<Record>, r: Result<seq<Record>, Error>): Result<seq<Record>, Error> {
    match r
    case Ok(rs) => Ok(front + rs)
    case Err(e) => Err(e)
  }

  lemma PrependTwice(a: seq<Record>, b: seq<Record>, r: Result<seq<Record>, Error>)
    ensures Prepend(a, Prepend(b, r)) == Prepend(a + b, r)
  {
    if r.Ok? {
      assert a + (b + r.value) == (a + b) + r.value;
    }
  }

  lemma PrependNothing(r: Result<seq<Record>, Error>)
    ensures Prepend([], r) == r
  {
    if r.Ok? {
      assert [] + r.value == r.value;
    }
  }

  method WalkSections(source: Bytes, base: nat) returns (r: Result<seq<Record>, Error>)
    ensures r == Walk(source, base)
  {
    hide Parse;
    PrependNothing(Walk(source, base));
    var sections: seq<Record> := [];
    var cursor := base;
    while cursor < |source|
      invariant Walk(source, base) == Prepend(sections, Walk(source, cursor))
      decreases |source| - cursor
    {
      if cursor + HEADER_LEN > |source| {
        return Err(TruncatedHeader(cursor));
      }
      var parsed := Parse(source[cursor..cursor + HEADER_LEN], cursor);
      if parsed.Err? {
        return Err(parsed.error);
      }
      var next := cursor + SectionLen(parsed.value);
      if next > U64_MAX || next > |source| {
        return Err(TruncatedSection(parsed.value.number, cursor));
      }
      PrependTwice(sections, [Record(cursor, parsed.value)], Walk(source, next));
      sections := sections + [Record(cursor, parsed.value)];
      cursor := next;
    }
    assert sections + [] == sections;
    return Ok(sections);
  }

  // --- What is written -----------------------------------------------------------------------------------------

  datatype Section = Section(header: SectionHeader, payload: Bytes)

  predicate Proper(s: Section) {
    Writable(s.header) && |s.payload| == s.header.payloadLen && HEADER_LEN + |s.payload| <= U64_MAX
  }

  predicate AllProper(ss: seq<Section>) {
    forall i :: 0 <= i < |ss| ==> Proper(ss[i])
  }

  function Written(s: Section): Bytes {
    Serialized(s.header) + s.payload
  }

  function AllWritten(ss: seq<Section>): Bytes {
    if ss == [] then [] else Written(ss[0]) + AllWritten(ss[1..])
  }

  function RecordsOf(ss: seq<Section>, at: nat): (rs: seq<Record>)
    ensures |rs| == |ss|
  {
    if ss == [] then [] else [Record(at, ss[0].header)] + RecordsOf(ss[1..], at + |Written(ss[0])|)
  }

  lemma WrittenLen(s: Section)
    requires Proper(s)
    ensures |Written(s)| == SectionLen(s.header) >= HEADER_LEN
  {
    SerializedFields(s.header);
  }

  // A section written at `at` is found there.
  lemma FoundWhereWritten(source: Bytes, at: nat, s: Section, rest: Bytes)
    requires at <= |source| && source[at..] == Written(s) + rest && Proper(s) && |source| <= U64_MAX
    ensures at < |source| && HeaderAt(source, at) == Ok(s.header)
    ensures source[at + |Written(s)|..] == rest
  {
    WrittenLen(s);
    SerializedFields(s.header);
    ParseInvertsWrite(s.header, [], at);
    assert |source| == at + |Written(s)| + |rest|;
    hide Serialized, Parse, Writable;
    assert Serialized(s.header) + [] == Serialized(s.header);
    assert source[at..at + HEADER_LEN] == source[at..][..HEADER_LEN] == Serialized(s.header);
    assert source[at + |Written(s)|..] == source[at..][|Written(s)|..] == rest;
  }

  // Walking gives back every list of sections, with the offset each was written at.
  lemma {:induction false} WalkFindsWritten(source: Bytes, at: nat, ss: seq<Section>)
    requires at <= |source| && source[at..] == AllWritten(ss) && AllProper(ss) && |source| <= U64_MAX
    ensures Walk(source, at) == Ok(RecordsOf(ss, at))
    decreases |ss|
  {
    hide HeaderAt, Written, Proper;
    if ss != [] {
      assert Proper(ss[0]);
      WrittenLen(ss[0]);
      FoundWhereWritten(source, at, ss[0], AllWritten(ss[1..]));
      WalkFindsWritten(source, at + |Written(ss[0])|, ss[1..]);
    }
  }

  lemma WalkInvertsWriting(prefix: Bytes, ss: seq<Section>)
    requires AllProper(ss) && |prefix + AllWritten(ss)| <= U64_MAX
    ensures Walk(prefix + AllWritten(ss), |prefix|) == Ok(RecordsOf(ss, |prefix|))
  {
    assert (prefix + AllWritten(ss))[|prefix|..] == AllWritten(ss);
    WalkFindsWritten(prefix + AllWritten(ss), |prefix|, ss);
  }

  // --- What is read --------------------------------------------------------------------------------------------

  // Consecutive sections that start at `base` and stop at `end`, with no gap and no overlap.
  predicate Tiles(rs: seq<Record>, base: nat, end: nat) {
    && (if rs == [] then base == end else rs[0].offset == base && End(rs[|rs| - 1]) == end)
    && forall i :: 0 < i < |rs| ==> rs[i].offset == End(rs[i - 1])
  }

  function End(r: Record): nat {
    r.offset + SectionLen(r.header)
  }

  // The section a record stands for.
  function SectionAt(source: Bytes, r: Record): Section
    requires End(r) <= |source|
  {
    Section(r.header, if r.offset + HEADER_LEN <= End(r) then source[r.offset + HEADER_LEN..End(r)] else [])
  }

  lemma ReadBack(source: Bytes, at: nat)
    requires at < |source| < U64_MAX && HeaderAt(source, at).Ok?
    ensures var r := Record(at, HeaderAt(source, at).value);
            && at + HEADER_LEN <= End(r) <= |source| && Proper(SectionAt(source, r))
            && Written(SectionAt(source, r)) == source[at..End(r)]
  {
    var h := HeaderAt(source, at).value;
    var r := Record(at, h);
    WriteInvertsParse(source[at..at + HEADER_LEN], at);
    hide Parse, Serialized, Writable;
    assert End(r) == at + HEADER_LEN + h.payloadLen;
    assert Serialized(h) == source[at..at + HEADER_LEN];
    assert source[at..at + HEADER_LEN] + source[at + HEADER_LEN..End(r)] == source[at..End(r)];
  }

  // A walk that succeeds covers the image from the base to its end.
  lemma {:induction false} WalkTiles(source: Bytes, base: nat)
    requires base <= |source| < U64_MAX && Walk(source, base).Ok?
    ensures Tiles(Walk(source, base).value, base, |source|)
    decreases |source| - base
  {
    hide HeaderAt;
    if base < |source| {
      var next := base + SectionLen(HeaderAt(source, base).value);
      HeaderFits(source, base);
      WalkTiles(source, next);
      var rs := Walk(source, base).value;
      assert rs[1..] == Walk(source, next).value;
      forall i | 0 < i < |rs| ensures rs[i].offset == End(rs[i - 1]) {
        assert rs[i] == rs[1..][i - 1] && (i > 1 ==> rs[i - 1] == rs[1..][i - 2]);
      }
    }
  }

  lemma HeaderFits(source: Bytes, at: nat)
    requires at < |source| && HeaderAt(source, at).Ok?
    ensures at + SectionLen(HeaderAt(source, at).value) <= |source|
  {
  }

  // And everything it covers is what its sections, written in order, come to.
  lemma {:induction false} WalkReadsBack(source: Bytes, base: nat) returns (ss: seq<Section>)
    requires base <= |source| < U64_MAX && Walk(source, base).Ok?
    ensures AllProper(ss) && source[base..] == AllWritten(ss) && Walk(source, base).value == RecordsOf(ss, base)
    decreases |source| - base
  {
    hide HeaderAt, Proper, Written;
    if base == |source| {
      ss := [];
    } else {
      var r := Record(base, HeaderAt(source, base).value);
      ReadBack(source, base);
      var s := SectionAt(source, r);
      WrittenLen(s);
      var rest := WalkReadsBack(source, End(r));
      ss := [s] + rest;
      assert ss[1..] == rest;
      assert source[base..] == source[base..End(r)] + source[End(r)..];
    }
  }

  // So a walk succeeds exactly on what some list of sections is written as.
  lemma WalkSucceedsIff(source: Bytes, base: nat)
    requires base <= |source| < U64_MAX
    ensures Walk(source, base).Ok? <==> exists ss :: AllProper(ss) && source[base..] == AllWritten(ss)
  {
    if Walk(source, base).Ok? {
      var ss := WalkReadsBack(source, base);
    }
    if ss :| AllProper(ss) && source[base..] == AllWritten(ss) {
      WalkFindsWritten(source, base, ss);
    }
  }

  // --- Where the first section is found ------------------------------------------------------------------------

  lemma MagicWhereWritten(source: Bytes, at: nat, s: Section, rest: Bytes)
    requires at <= |source| && source[at..] == Written(s) + rest && Proper(s) && |source| <= U64_MAX
    ensures at + HEADER_LEN <= |source| && D.MagicAt(source, at)
    ensures Parse(source[at..at + HEADER_LEN], at) == Ok(s.header)
  {
    FoundWhereWritten(source, at, s, rest);
    assert source[at..at + HEADER_LEN][0..6] == source[at..at + 6];
  }

  lemma FollowedByABoundary(source: Bytes, at: nat, ss: seq<Section>, slice: bool)
    requires ss != [] && at <= |source| && source[at..] == AllWritten(ss) && AllProper(ss) && |source| <= U64_MAX
    ensures at + HEADER_LEN <= |source| && D.Judge(source, at, slice) == D.Accept
  {
    hide Written, Proper, Parse;
    assert Proper(ss[0]);
    WrittenLen(ss[0]);
    MagicWhereWritten(source, at, ss[0], AllWritten(ss[1..]));
    FoundWhereWritten(source, at, ss[0], AllWritten(ss[1..]));
    var next := at + SectionLen(ss[0].header);
    if |ss| > 1 {
      assert Proper(ss[1]) && ss[1..][0] == ss[1];
      MagicWhereWritten(source, next, ss[1], AllWritten(ss[1..][1..]));
    } else {
      assert source[next..] == [];
    }
  }

  // Any prefix without a magic in it, or across its end, is passed over: opening the image finds the first section
  // right behind it, whichever way the source is read.
  lemma FirstSectionFound(prefix: Bytes, ss: seq<Section>, slice: bool)
    requires ss != [] && AllProper(ss) && |prefix + AllWritten(ss)| <= U64_MAX
    requires D.Clear(prefix + AllWritten(ss), 0, |prefix|)
    ensures D.Detected(prefix + AllWritten(ss), slice) == Ok(|prefix|)
  {
    var source := prefix + AllWritten(ss);
    assert source[|prefix|..] == AllWritten(ss);
    FollowedByABoundary(source, |prefix|, ss, slice);
    D.SkipTo(source, slice, 0, |prefix|, None);
    var vs := D.Verdicts(source, slice);
    assert vs[|prefix|] == D.Accept;
  }
}
