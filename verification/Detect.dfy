/** Finding the first section of an image that may carry a prefix.
    A source backed by memory is scanned in place; any other is scanned through overlapping 64 KiB probes. */
module Detect {
  import opened Common
  import opened Header

  const MAGIC_LEN: nat := 6
  const SCAN_CHUNK: nat := 65536

  predicate MagicAt(image: Bytes, p: nat) {
    p + MAGIC_LEN <= |image| && image[p..p + MAGIC_LEN] == MAGIC
  }

  // What a candidate header's claimed end says about it.
  datatype Boundary = Follows | DoesNotFollow | BadRead(at: nat)

  // The check on a slice: every addition is checked.
  function SliceBoundary(image: Bytes, at: nat, h: SectionHeader): Boundary {
    var next := at + SectionLen(h);
    if next > U64_MAX then DoesNotFollow
    else if next == |image| then Follows
    else if next + MAGIC_LEN > U64_MAX then DoesNotFollow
    else if next + MAGIC_LEN > |image| then DoesNotFollow
    else if image[next..next + MAGIC_LEN] == MAGIC then Follows
    else DoesNotFollow
  }

  // The check on a source: `next + 6` is added modulo 2^64, and a read past the end is an error.
  function SourceBoundary(image: Bytes, at: nat, h: SectionHeader): Boundary {
    var next := at + SectionLen(h);
    if next > U64_MAX then DoesNotFollow
    else if next == |image| then Follows
    else if (next + MAGIC_LEN) % (U64_MAX + 1) > |image| then DoesNotFollow
    else if next + MAGIC_LEN > |image| then BadRead(next)
    else if image[next..next + MAGIC_LEN] == MAGIC then Follows
    else DoesNotFollow
  }

  datatype Verdict = Accept | Reject | Remember(error: Error) | Abort(error: Error)

  // What either scan makes of position p.
  function Judge(image: Bytes, p: nat, slice: bool): Verdict
    requires p + HEADER_LEN <= |image|
  {
    if !MagicAt(image, p) then Reject
    else match Parse(image[p..p + HEADER_LEN], p)
      case Ok(h) =>
        (match if slice then SliceBoundary(image, p, h) else SourceBoundary(image, p, h)
         case Follows => Accept
         case DoesNotFollow => Reject
         case BadRead(at) => Abort(SourceOutOfBounds(at, MAGIC_LEN)))
      case Err(e) => if e.UnsupportedVersion? then Remember(e) else Reject
  }

  function OrNotAnImage(seen: Option<Error>): Error {
    if seen.Some? then seen.value else NotADwarfsImage
  }

  function Noted(seen: Option<Error>, e: Error): Option<Error> {
    if seen.Some? then seen else Some(e)
  }

  // What the scan makes of every position a header could start at.
  function Verdicts(image: Bytes, slice: bool): (vs: seq<Verdict>)
    ensures |vs| == Max(0, |image| + 1 - HEADER_LEN)
  {
    seq(Max(0, |image| + 1 - HEADER_LEN), p requires 0 <= p && p + HEADER_LEN <= |image| => Judge(image, p, slice))
  }

  // The scan as the format describes it: one position after another, none skipped.
  function Scan(vs: seq<Verdict>, p: nat, seen: Option<Error>): Result<nat, Error>
    decreases |vs| - p
  {
    if p >= |vs| then Err(OrNotAnImage(seen))
    else match vs[p]
      case Accept => Ok(p)
      case Reject => Scan(vs, p + 1, seen)
      case Remember(e) => Scan(vs, p + 1, Noted(seen, e))
      case Abort(e) => Err(e)
  }

  function Detected(image: Bytes, slice: bool): Result<nat, Error> {
    Scan(Verdicts(image, slice), 0, None)
  }

  predicate Clear(image: Bytes, p: nat, q: nat) {
    forall k :: p <= k < q ==> !MagicAt(image, k)
  }

  // The first magic of `s` at or after `from`.
  method FindMagic(s: Bytes, from: nat) returns (r: Option<nat>)
    requires from <= |s|
    ensures r.Some? ==> from <= r.value && MagicAt(s, r.value)
    ensures Clear(s, from, if r.Some? then r.value else |s|)
  {
    for i := from to |s|
      invariant Clear(s, from, i)
    {
      if MagicAt(s, i) {
        return Some(i);
      }
    }
    return None;
  }

  predicate Unremarkable(vs: seq<Verdict>, p: nat, q: nat) {
    forall k :: p <= k < q && k < |vs| ==> vs[k] == Reject
  }

  lemma {:induction false} SkipRejected(vs: seq<Verdict>, p: nat, q: nat, seen: Option<Error>)
    requires p <= q && Unremarkable(vs, p, q)
    ensures Scan(vs, p, seen) == Scan(vs, q, seen)
    decreases q - p
  {
    if p < q && p < |vs| {
      SkipRejected(vs, p + 1, q, seen);
    }
  }

  // Positions without a magic do not matter.
  lemma SkipTo(image: Bytes, slice: bool, p: nat, q: nat, seen: Option<Error>)
    requires p <= q && Clear(image, p, q)
    ensures Scan(Verdicts(image, slice), p, seen) == Scan(Verdicts(image, slice), q, seen)
  {
    assert Unremarkable(Verdicts(image, slice), p, q);
    SkipRejected(Verdicts(image, slice), p, q, seen);
  }

  // A magic inside a window is a magic of the image.
  lemma WindowMagic(image: Bytes, lo: nat, hi: nat, k: nat)
    requires lo <= hi <= |image| && lo + k + MAGIC_LEN <= hi
    ensures MagicAt(image[lo..hi], k) == MagicAt(image, lo + k)
  {
    var w := image[lo..hi][k..k + MAGIC_LEN];
    var m := image[lo + k..lo + k + MAGIC_LEN];
    assert forall i :: 0 <= i < MAGIC_LEN ==> w[i] == m[i];
    assert w == m;
  }

  lemma WindowClear(image: Bytes, lo: nat, hi: nat, from: nat, to: nat)
    requires lo <= hi <= |image| && lo + to + MAGIC_LEN <= hi + 1
    requires Clear(image[lo..hi], from, to)
    ensures Clear(image, lo + from, lo + to)
  {
    forall k | lo + from <= k < lo + to ensures !MagicAt(image, k) {
      WindowMagic(image, lo, hi, k - lo);
    }
  }

  // Parses the header of a candidate and checks where it says its section ends.
  method Consider(image: Bytes, candidate: nat, slice: bool) returns (v: Verdict)
    requires candidate + HEADER_LEN <= |image| && MagicAt(image, candidate)
    ensures v == Verdicts(image, slice)[candidate]
  {
    var parsed := Parse(image[candidate..candidate + HEADER_LEN], candidate);
    match parsed {
      case Ok(h) =>
        var boundary := if slice then SliceBoundary(image, candidate, h) else SourceBoundary(image, candidate, h);
        match boundary {
          case Follows => v := Accept;
          case DoesNotFollow => v := Reject;
          case BadRead(at) => v := Abort(SourceOutOfBounds(at, MAGIC_LEN));
        }
      case Err(e) =>
        v := if e.UnsupportedVersion? then Remember(e) else Reject;
    }
  }

  // The scan of a contiguous image.
  method DetectBaseOffset(image: Bytes) returns (r: Result<nat, Error>)
    ensures r == Detected(image, true)
  {
    hide Verdicts, Judge, Clear, MagicAt;
    ghost var vs := Verdicts(image, true);
    if |image| < HEADER_LEN {
      return Err(NotADwarfsImage);
    }
    var last := |image| - HEADER_LEN;
    var probe := 0;
    var seen: Option<Error> := None;
    while probe <= last
      invariant 0 <= probe
      invariant Scan(vs, 0, None) == Scan(vs, probe, seen)
      decreases |image| - probe
    {
      var found := FindMagic(image, probe);
      SkipTo(image, true, probe, if found.Some? then found.value else |image|, seen);
      if found.None? {
        break;
      }
      var candidate := found.value;
      if candidate > last {
        break;
      }
      var verdict := Consider(image, candidate, true);
      match verdict {
        case Accept => return Ok(candidate);
        case Abort(e) => return Err(e);
        case Remember(e) => seen := Noted(seen, e);
        case Reject =>
      }
      probe := candidate + 1;
    }
    return Err(OrNotAnImage(seen));
  }

  // The position a search of the window image[lo..hi] reached: the magic found, or the first one the window
  // does not cover.
  function Reached(lo: nat, hi: nat, found: Option<nat>): int {
    if found.Some? then lo + found.value else hi + 1 - MAGIC_LEN
  }

  lemma WindowStep(image: Bytes, lo: nat, hi: nat, at: nat, found: Option<nat>, seen: Option<Error>)
    requires lo <= hi <= |image| && at + MAGIC_LEN <= hi - lo + 1
    requires found.Some? ==> at <= found.value && MagicAt(image[lo..hi], found.value)
    requires Clear(image[lo..hi], at, if found.Some? then found.value else hi - lo)
    ensures found.Some? ==> lo + found.value + MAGIC_LEN <= hi && MagicAt(image, lo + found.value)
    ensures Scan(Verdicts(image, false), lo + at, seen) == Scan(Verdicts(image, false), Reached(lo, hi, found), seen)
  {
    hide Judge, Verdicts, Scan;
    if found.Some? {
      WindowMagic(image, lo, hi, found.value);
    }
    WindowClear(image, lo, hi, at, Reached(lo, hi, found) - lo);
    SkipTo(image, false, lo + at, Reached(lo, hi, found), seen);
  }

  // The scan of a source that can only be read at offsets.
  method DetectBaseOffsetIn(source: Bytes) returns (r: Result<nat, Error>)
    ensures r == Detected(source, false)
  {
    hide Verdicts, Judge, Clear, MagicAt;
    ghost var vs := Verdicts(source, false);
    var total := |source|;
    if total < HEADER_LEN {
      return Err(NotADwarfsImage);
    }
    var last := total - HEADER_LEN;
    var seen: Option<Error> := None;
    var probe := 0;
    while probe <= last
      invariant 0 <= probe
      invariant Scan(vs, 0, None) == Scan(vs, probe, seen)
      decreases total - probe
    {
      var want := Min(SCAN_CHUNK, total - probe);
      var window := source[probe..probe + want];
      var at := 0;
      while true
        invariant 0 <= at <= want - (MAGIC_LEN - 1)
        invariant Scan(vs, 0, None) == Scan(vs, probe + at, seen)
        decreases want - at
      {
        var found := FindMagic(window, at);
        WindowStep(source, probe, probe + want, at, found, seen);
        if found.None? {
          at := want - (MAGIC_LEN - 1);
          break;
        }
        var candidate := probe + found.value;
        if candidate > last {
          return Err(OrNotAnImage(seen));
        }
        var verdict := Consider(source, candidate, false);
        match verdict {
          case Accept => return Ok(candidate);
          case Abort(e) => return Err(e);
          case Remember(e) => seen := Noted(seen, e);
          case Reject =>
        }
        at := found.value + 1;
      }
      if want < SCAN_CHUNK {
        break;
      }
      probe := probe + (SCAN_CHUNK - (MAGIC_LEN - 1));
    }
    return Err(OrNotAnImage(seen));
  }

  // A header at p whose claimed end fits in 64 bits, is not the end of the image, and is less than a magic away
  // from overflowing.
  predicate OverflowAt(image: Bytes, p: nat) {
    && p + HEADER_LEN <= |image| && MagicAt(image, p)
    && var parsed := Parse(image[p..p + HEADER_LEN], p);
    && parsed.Ok?
    && var next := p + SectionLen(parsed.value);
    && next <= U64_MAX < next + MAGIC_LEN && next != |image|
  }

  predicate AcceptedAt(image: Bytes, p: nat) {
    p + HEADER_LEN <= |image| && Judge(image, p, true) == Accept
  }

  // A header stands at p, and right behind its section another begins or the image ends.
  ghost predicate SectionAt(image: Bytes, p: nat, h: SectionHeader) {
    && p + 64 <= |image| && Writable(h) && image[p..p + 64] == Serialized(h)
    && var next := p + 64 + h.payloadLen;
    && (next == |image|
        || (next + 6 <= |image| && image[next..next + 6] == [0x44, 0x57, 0x41, 0x52, 0x46, 0x53]))
  }

  // A position is accepted exactly when a whole section stands there: a magic inside a prefix, a payload or a file
  // name is not enough.
  lemma AcceptedIff(image: Bytes, p: nat)
    requires |image| < U64_MAX
    ensures AcceptedAt(image, p) <==> exists h: SectionHeader :: SectionAt(image, p, h)
  {
    hide Serialized, Writable, Parse;
    if AcceptedAt(image, p) {
      var bytes := image[p..p + 64];
      WriteInvertsParse(bytes, p);
      assert SectionAt(image, p, Parse(bytes, p).value);
    }
    if h: SectionHeader :| SectionAt(image, p, h) {
      var bytes := image[p..p + 64];
      ParseInvertsWrite(h, [], p);
      assert Serialized(h) + [] == bytes;
      HeaderStarts(h);
      assert bytes[0..6] == image[p..p + 6];
    }
  }

  lemma HeaderStarts(h: SectionHeader)
    requires Writable(h)
    ensures Serialized(h)[0..6] == MAGIC && |Serialized(h)| == 64
  {
    SerializedFields(h);
  }

  predicate NoneAccepted(image: Bytes, p: nat, q: nat) {
    forall k :: p <= k < q ==> !AcceptedAt(image, k)
  }

  // One candidate gets the same verdict from both checks unless it overflows.
  lemma JudgeAgrees(image: Bytes, p: nat)
    requires p + HEADER_LEN <= |image| <= U64_MAX
    ensures if OverflowAt(image, p) then Overflowing(Judge(image, p, false), Judge(image, p, true))
            else Judge(image, p, false) == Judge(image, p, true)
    ensures !Judge(image, p, true).Abort?
            && (Judge(image, p, true).Remember? ==> Judge(image, p, true).error.UnsupportedVersion?)
  {
    if MagicAt(image, p) {
      var parsed := Parse(image[p..p + HEADER_LEN], p);
      if parsed.Ok? {
        var next := p + SectionLen(parsed.value);
        if next <= U64_MAX {
          assert (next + MAGIC_LEN) % (U64_MAX + 1)
                 == if next + MAGIC_LEN > U64_MAX then next + MAGIC_LEN - (U64_MAX + 1) else next + MAGIC_LEN;
        }
      }
    }
  }

  predicate Benign(seen: Option<Error>) {
    seen.Some? ==> seen.value.UnsupportedVersion?
  }

  lemma {:induction false} SliceNeverReadsPast(vs: seq<Verdict>, p: nat, seen: Option<Error>)
    requires Benign(seen) && forall k :: p <= k < |vs| ==>
              !vs[k].Abort? && (vs[k].Remember? ==> vs[k].error.UnsupportedVersion?)
    ensures var r := Scan(vs, p, seen); r.Err? ==> r.error.UnsupportedVersion? || r.error == NotADwarfsImage
    decreases |vs| - p
  {
    if p < |vs| {
      SliceNeverReadsPast(vs, p + 1, if vs[p].Remember? then Noted(seen, vs[p].error) else seen);
    }
  }

  // What the two verdict lists have to do with each other, position by position.
  predicate Overflowing(v: Verdict, w: Verdict) {
    w == Reject && v.Abort? && v.error.SourceOutOfBounds?
  }

  predicate Related(vs: seq<Verdict>, ws: seq<Verdict>) {
    && |vs| == |ws|
    && forall k :: 0 <= k < |vs| ==>
         && !ws[k].Abort? && (ws[k].Remember? ==> ws[k].error.UnsupportedVersion?)
         && (vs[k] == ws[k] || Overflowing(vs[k], ws[k]))
  }

  ghost predicate MeetsOverflow(vs: seq<Verdict>, ws: seq<Verdict>, p: nat) {
    exists q: nat :: p <= q < |vs| && q < |ws| && Overflowing(vs[q], ws[q]) && NoneAccept(ws, p, q)
  }

  predicate NoneAccept(ws: seq<Verdict>, p: nat, q: nat) {
    forall k :: p <= k < q && k < |ws| ==> !ws[k].Accept?
  }

  lemma NextOverflow(vs: seq<Verdict>, ws: seq<Verdict>, p: nat)
    requires p < |vs| == |ws|
    ensures MeetsOverflow(vs, ws, p)
            <==> Overflowing(vs[p], ws[p]) || (!ws[p].Accept? && MeetsOverflow(vs, ws, p + 1))
  {
    if Overflowing(vs[p], ws[p]) {
      assert NoneAccept(ws, p, p);
    } else {
      if q: nat :| p <= q < |vs| && q < |ws| && Overflowing(vs[q], ws[q]) && NoneAccept(ws, p, q) {
        assert NoneAccept(ws, p + 1, q);
      }
      if q: nat :|
        p + 1 <= q < |vs| && q < |ws| && Overflowing(vs[q], ws[q]) && NoneAccept(ws, p + 1, q) && !ws[p].Accept? {
        assert NoneAccept(ws, p, q);
      }
    }
  }

  lemma {:induction false} AgreeFrom(vs: seq<Verdict>, ws: seq<Verdict>, p: nat, seen: Option<Error>)
    requires Benign(seen) && Related(vs, ws)
    ensures Scan(vs, p, seen) == Scan(ws, p, seen) <==> !MeetsOverflow(vs, ws, p)
    decreases |vs| - p
  {
    if p < |vs| {
      SliceNeverReadsPast(ws, p, seen);
      AgreeFrom(vs, ws, p + 1, if ws[p].Remember? then Noted(seen, ws[p].error) else seen);
      NextOverflow(vs, ws, p);
    }
  }

  lemma VerdictsRelated(image: Bytes)
    requires |image| <= U64_MAX
    ensures Related(Verdicts(image, false), Verdicts(image, true))
    ensures forall k :: 0 <= k < |Verdicts(image, true)|
              ==> (Overflowing(Verdicts(image, false)[k], Verdicts(image, true)[k]) <==> OverflowAt(image, k))
    ensures forall k :: 0 <= k < |Verdicts(image, true)| ==>
              (Verdicts(image, true)[k].Accept? <==> AcceptedAt(image, k))
  {
    forall k | 0 <= k < |Verdicts(image, true)|
      ensures Verdicts(image, false)[k] == Judge(image, k, false) && Verdicts(image, true)[k] == Judge(image, k, true)
    {
    }
    forall k | 0 <= k < |Verdicts(image, true)| {
      JudgeAgrees(image, k);
    }
  }

  ghost predicate ReachesOverflow(image: Bytes) {
    exists q: nat :: OverflowAt(image, q) && NoneAccepted(image, 0, q)
  }

  lemma NoneAcceptedAgree(image: Bytes, q: nat)
    requires q <= |Verdicts(image, true)| && |image| <= U64_MAX
    ensures NoneAccept(Verdicts(image, true), 0, q) <==> NoneAccepted(image, 0, q)
  {
    VerdictsRelated(image);
    hide Judge, OverflowAt, AcceptedAt, Verdicts, Overflowing;
    forall k | 0 <= k < q ensures Verdicts(image, true)[k].Accept? <==> AcceptedAt(image, k) {
    }
  }

  lemma OverflowMet(image: Bytes, vs: seq<Verdict>, ws: seq<Verdict>)
    requires |image| <= U64_MAX && vs == Verdicts(image, false) && ws == Verdicts(image, true)
    ensures MeetsOverflow(vs, ws, 0) <==> ReachesOverflow(image)
  {
    VerdictsRelated(image);
    hide Judge, OverflowAt, NoneAccepted, NoneAccept, Verdicts, Overflowing;
    if q: nat :| 0 <= q < |vs| && q < |ws| && Overflowing(vs[q], ws[q]) && NoneAccept(ws, 0, q) {
      NoneAcceptedAgree(image, q);
      assert OverflowAt(image, q) && NoneAccepted(image, 0, q);
    }
    if q: nat :| OverflowAt(image, q) && NoneAccepted(image, 0, q) {
      InRange(image, q);
      NoneAcceptedAgree(image, q);
      assert Overflowing(vs[q], ws[q]) && NoneAccept(ws, 0, q);
    }
  }

  lemma InRange(image: Bytes, q: nat)
    requires OverflowAt(image, q)
    ensures q < |Verdicts(image, true)| == |Verdicts(image, false)|
  {
  }

  // The two scans give the same offset or the same error exactly when no candidate reached before the first
  // accepted one has an end that overflows once the length of a magic is added.
  lemma ProbesAgreeIff(image: Bytes)
    requires |image| <= U64_MAX
    ensures Detected(image, false) == Detected(image, true) <==> !ReachesOverflow(image)
  {
    var vs, ws := Verdicts(image, false), Verdicts(image, true);
    VerdictsRelated(image);
    OverflowMet(image, vs, ws);
    hide Judge, OverflowAt, AcceptedAt, Verdicts, MeetsOverflow, ReachesOverflow;
    AgreeFrom(vs, ws, 0, None);
  }

  function OverflowingHeader(): SectionHeader {
    SectionHeader(2, 5, seq(32, _ => 0), 0, 0, Block, NoCompression, U64_MAX - HEADER_LEN - 3)
  }

  lemma OneHeaderImage(image: Bytes, h: SectionHeader)
    requires Writable(h) && image == Serialized(h)
    ensures |image| == HEADER_LEN && MagicAt(image, 0) && Parse(image[0..HEADER_LEN], 0) == Ok(h)
  {
    SerializedFields(h);
    ParseInvertsWrite(h, [], 0);
    assert Serialized(h) + [] == Serialized(h);
    assert image[0..HEADER_LEN] == image;
  }

  // And they do differ: one header is refused as no image by the slice scan, as a failed read by the other.
  lemma ProbesCanDisagree(image: Bytes)
    requires image == Serialized(OverflowingHeader())
    ensures Detected(image, true) == Err(NotADwarfsImage)
    ensures Detected(image, false) == Err(SourceOutOfBounds(U64_MAX - 3, MAGIC_LEN))
  {
    OneHeaderImage(image, OverflowingHeader());
    OverflowingVerdicts(image);
    SingleVerdict(image, true);
    SingleVerdict(image, false);
  }

  lemma SingleVerdict(image: Bytes, slice: bool)
    requires |image| == HEADER_LEN
    ensures Detected(image, slice)
            == match Judge(image, 0, slice)
               case Accept => Ok(0)
               case Reject => Err(NotADwarfsImage)
               case Remember(e) => Err(e)
               case Abort(e) => Err(e)
  {
    var vs := Verdicts(image, slice);
    assert vs[0] == Judge(image, 0, slice) && |vs| == 1;
    SingleScan(vs);
  }

  lemma SingleScan(vs: seq<Verdict>)
    requires |vs| == 1
    ensures Scan(vs, 0, None)
            == match vs[0]
               case Accept => Ok(0)
               case Reject => Err(NotADwarfsImage)
               case Remember(e) => Err(e)
               case Abort(e) => Err(e)
  {
    assert Scan(vs, 1, None) == Err(NotADwarfsImage);
  }

  lemma OverflowingVerdicts(image: Bytes)
    requires |image| == HEADER_LEN && MagicAt(image, 0) && Parse(image[0..HEADER_LEN], 0) == Ok(OverflowingHeader())
    ensures Judge(image, 0, true) == Reject
    ensures Judge(image, 0, false) == Abort(SourceOutOfBounds(U64_MAX - 3, MAGIC_LEN))
  {
    hide Parse;
    assert SliceBoundary(image, 0, OverflowingHeader()) == DoesNotFollow;
    assert SourceBoundary(image, 0, OverflowingHeader()) == BadRead(U64_MAX - 3);
  }

  // The first position that ends a scan decides it; a scan nothing ends reports the first version error.
  predicate Quiet(vs: seq<Verdict>, p: nat, q: nat) {
    forall k :: p <= k < q && k < |vs| ==> vs[k].Reject? || vs[k].Remember?
  }

  lemma {:induction false} FirstEndDecides(vs: seq<Verdict>, p: nat, q: nat, seen: Option<Error>)
    requires p <= q < |vs| && Quiet(vs, p, q) && (vs[q].Accept? || vs[q].Abort?)
    ensures Scan(vs, p, seen) == if vs[q].Accept? then Ok(q) else Err(vs[q].error)
    decreases q - p
  {
    if p < q {
      FirstEndDecides(vs, p + 1, q, if vs[p].Remember? then Noted(seen, vs[p].error) else seen);
    }
  }

  lemma {:induction false} KeptOnceSeen(vs: seq<Verdict>, p: nat, e: Error)
    requires Quiet(vs, p, |vs|)
    ensures Scan(vs, p, Some(e)) == Err(e)
    decreases |vs| - p
  {
    if p < |vs| {
      KeptOnceSeen(vs, p + 1, e);
    }
  }

  lemma {:induction false} FirstVersionErrorKept(vs: seq<Verdict>, p: nat, q: nat)
    requires Quiet(vs, p, |vs|) && p <= q && Unremarkable(vs, p, q)
    requires q < |vs| ==> vs[q].Remember?
    ensures Scan(vs, p, None) == Err(if q < |vs| then vs[q].error else NotADwarfsImage)
    decreases |vs| - p
  {
    if p < q && p < |vs| {
      FirstVersionErrorKept(vs, p + 1, q);
    } else if p < |vs| {
      KeptOnceSeen(vs, p + 1, vs[p].error);
    }
  }
}
