/**
 The cache as mutable objects: `Shared` is the state behind the lock, `BlockCache`
 the handle. Each method is proved against the critical section it implements.
 `BlockCache.Fetch` is a fetch by a caller that holds the cache exclusively.
 */
module CacheObject {
  import opened Common
  import opened CacheModel
  import opened CacheProtocol

  class Shared {
    var decodedWhole: set<Block>
    var resident: nat
    var blocks: map<Block, Entry>
    var order: seq<Block>

    function View(): Inner
      reads this
    {
      Inner(decodedWhole, resident, blocks, order)
    }

    constructor ()
      ensures View() == EMPTY
    {
      decodedWhole, resident, blocks, order := {}, 0, map[], [];
    }

    method TouchBlock(b: Block)
      modifies this
      ensures View() == Touch(old(View()), b)
    {
      if b in order {
        var pos := Find(order, b);
        order := order[..pos] + order[pos + 1..];
        order := order + [b];
      }
    }

    // Drops one block and stops counting its bytes.
    method EvictBlock(b: Block)
      requires Consistent(View())
      modifies this
      ensures View() == Evict(old(View()), b) && Consistent(View())
    {
      ghost var was := View();
      EvictKeeps(was, b);
      if b in blocks && blocks[b].Ready? {
        SumLenWithout(order, b, blocks);
        resident := resident - |blocks[b].bytes|;
      }
      blocks := blocks - {b};
      if b in order {
        var pos := Find(order, b);
        order := order[..pos] + order[pos + 1..];
      }
    }

    // Drops the least recently used block, if any is left.
    method EvictOne() returns (evicted: bool)
      requires Consistent(View())
      modifies this
      ensures evicted <==> old(order) != []
      ensures View() == if evicted then Evict(old(View()), old(order)[0]) else old(View())
      ensures Consistent(View())
    {
      if order == [] {
        return false;
      }
      var key := order[0];
      assert key in order && Without(order, key) == order[1..];
      EvictKeeps(View(), key);
      if key in blocks && blocks[key].Ready? {
        resident := resident - |blocks[key].bytes|;
      }
      order := order[1..];
      blocks := blocks - {key};
      evicted := true;
    }

    method AdmitBlock(b: Block, bytes: Bytes, budget: nat)
      requires Consistent(View())
      modifies this
      ensures View() == Admit(old(View()), b, bytes, budget)
    {
      ghost var was := View();
      EvictAbsent(was, b);
      EvictKeeps(was, b);
      hide Consistent, Admit, SumLen;
      if b in blocks && blocks[b].Ready? {
        EvictBlock(b);
      } else {
        blocks := blocks - {b};
      }
      LandedIsAdmit(View(), b, bytes, budget);
      EvictThenAdmit(was, b, bytes, budget);
      var more := true;
      while more && resident + |bytes| > budget
        invariant Consistent(View()) && b !in blocks
        invariant Landed(View(), b, bytes, budget) == Admit(was, b, bytes, budget)
        invariant !more ==> order == []
        decreases more, |order|
      {
        if order != [] {
          assert Without(order, order[0]) == order[1..];
        }
        more := EvictOne();
      }
      resident := resident + |bytes|;
      order := order + [b];
      blocks := blocks[b := Ready(bytes)];
    }
  }

  // A block that is not resident leaves only its mark behind.
  lemma EvictAbsent(s: Inner, b: Block)
    requires Consistent(s)
    ensures !IsReady(s.blocks, b) ==> Evict(s, b) == s.(blocks := s.blocks - {b})
  {
    if !IsReady(s.blocks, b) {
      assert b !in s.order;
      SumLenFrame(s.order, s.blocks, s.blocks - {b});
    }
  }

  lemma EvictThenAdmit(s: Inner, b: Block, bytes: Bytes, budget: nat)
    requires Consistent(s)
    ensures Admit(Evict(s, b), b, bytes, budget) == Admit(s, b, bytes, budget)
  {
    WithoutFacts(s.order, b);
    assert Evict(s, b).blocks - {b} == s.blocks - {b};
  }

  // One eviction after another, then the new block.
  ghost function Landed(s: Inner, b: Block, bytes: Bytes, budget: nat): Inner
    decreases |s.order|
  {
    if s.order != [] && s.resident + |bytes| > budget then
      assert Without(s.order, s.order[0]) == s.order[1..];
      Landed(Evict(s, s.order[0]), b, bytes, budget)
    else
      Inner(s.decodedWhole, s.resident + |bytes|, s.blocks[b := Ready(bytes)], s.order + [b])
  }

  lemma {:induction false} KeepFrame(order: seq<Block>, blocks: map<Block, Entry>, blocks': map<Block, Entry>,
                                       n: nat, budget: nat)
    requires forall x: Block :: x in order ==> Len(blocks, x) == Len(blocks', x)
    ensures Keep(order, blocks, n, budget) == Keep(order, blocks', n, budget)
    ensures SumLen(Keep(order, blocks, n, budget), blocks) == SumLen(Keep(order, blocks, n, budget), blocks')
    ensures forall x: Block :: x in Keep(order, blocks, n, budget) ==> x in order
  {
    SumLenFrame(order, blocks, blocks');
    if order != [] && SumLen(order, blocks) + n > budget {
      assert forall x: Block :: x in order[1..] ==> x in order;
      KeepFrame(order[1..], blocks, blocks', n, budget);
    }
  }

  // The queue and the byte count agree on what to keep once the oldest block is gone.
  lemma KeepRest(s: Inner, b: Block, n: nat, budget: nat)
    requires Consistent(s) && b !in s.blocks && s.order != [] && s.resident + n > budget
    ensures var rest := s.order[1..];
            var blocks := s.blocks - {s.order[0]};
            var kept := Keep(rest, blocks, n, budget);
            && Without(s.order, s.order[0]) == rest && s.order[0] !in rest
            && Keep(s.order, s.blocks, n, budget) == kept
            && SumLen(kept, s.blocks) == SumLen(kept, blocks)
            && (forall x: Block :: x in kept ==> x in rest)
  {
    assert s.order[0] in s.order;
    KeepFrame(s.order[1..], s.blocks, s.blocks - {s.order[0]}, n, budget);
  }

  // Admit with the block itself absent and the kept suffix named.
  ghost function AdmitKept(s: Inner, b: Block, bytes: Bytes, kept: seq<Block>): Inner {
    Inner(s.decodedWhole, SumLen(kept, s.blocks) + |bytes|,
          (s.blocks - Dropped(s.order, kept))[b := Ready(bytes)], kept + [b])
  }

  ghost function Dropped(order: seq<Block>, kept: seq<Block>): set<Block> {
    set x | x in order && x !in kept
  }

  lemma AdmitAbsent(s: Inner, b: Block, bytes: Bytes, budget: nat)
    requires Consistent(s) && b !in s.blocks
    ensures Admit(s, b, bytes, budget) == AdmitKept(s, b, bytes, Keep(s.order, s.blocks, |bytes|, budget))
  {
    assert b !in s.order;
    assert s.blocks - {b} == s.blocks;
  }

  lemma DroppedFirst(order: seq<Block>, kept: seq<Block>, blocks: map<Block, Entry>)
    requires order != [] && order[0] !in kept
    ensures blocks - Dropped(order, kept) == blocks - {order[0]} - Dropped(order[1..], kept)
  {
    assert order == [order[0]] + order[1..];
  }

  // Dropping the oldest block first changes nothing about what admitting leaves behind.
  lemma DropFirst(s: Inner, b: Block, bytes: Bytes, budget: nat)
    requires Consistent(s) && b !in s.blocks && s.order != [] && s.resident + |bytes| > budget
    ensures Admit(Evict(s, s.order[0]), b, bytes, budget) == Admit(s, b, bytes, budget)
  {
    KeepRest(s, b, |bytes|, budget);
    EvictKeeps(s, s.order[0]);
    AdmitAbsent(s, b, bytes, budget);
    AdmitAbsent(Evict(s, s.order[0]), b, bytes, budget);
    DroppedFirst(s.order, Keep(s.order, s.blocks, |bytes|, budget), s.blocks);
  }

  lemma {:induction false} LandedIsAdmit(s: Inner, b: Block, bytes: Bytes, budget: nat)
    requires Consistent(s) && b !in s.blocks
    ensures Landed(s, b, bytes, budget) == Admit(s, b, bytes, budget)
    decreases |s.order|
  {
    assert b !in s.order && Without(s.order, b) == s.order;
    assert s.blocks - {b} == s.blocks;
    if s.order != [] && s.resident + |bytes| > budget {
      assert s.order[0] in s.order && Without(s.order, s.order[0]) == s.order[1..];
      EvictKeeps(s, s.order[0]);
      LandedIsAdmit(Evict(s, s.order[0]), b, bytes, budget);
      DropFirst(s, b, bytes, budget);
    } else {
      assert Keep(s.order, s.blocks, |bytes|, budget) == s.order;
    }
  }

  // ------------------------------------------------------------- the handle

  // A codec: decode at least `want` bytes from the front where it can stop early
  // (None where it cannot), or decode the whole payload under a cap.
  datatype Codec = Codec(
    prefix: (Block, nat) -> Option<Option<Bytes>>,
    full: (Block, nat) -> Option<Bytes>)

  // The codec returns true bytes whenever it returns any.
  ghost predicate Honest(img: Image, codec: Codec) {
    && (forall b: Block, want: nat ::
          b < |img.payloads| && codec.prefix(b, want).Some? && codec.prefix(b, want).value.Some? ==>
          && codec.prefix(b, want).value.value <= img.payloads[b]
          && |codec.prefix(b, want).value.value| >= Min(want, |img.payloads[b]|))
    && (forall b: Block, cap: nat :: b < |img.payloads| && codec.full(b, cap).Some? ==>
          codec.full(b, cap).value == img.payloads[b] && |img.payloads[b]| <= cap)
  }

  // A block the codec never fails on, whether or not it can stop early.
  ghost predicate Decodable(img: Image, codec: Codec, b: Block) {
    && b < |img.payloads| && codec.full(b, img.whole).Some?
    && forall want: nat :: codec.prefix(b, want).Some?
  }

  // The codec stops early exactly where it is asked to.
  ghost predicate StopsAtOnce(img: Image, codec: Codec, b: Block) {
    b < |img.payloads| && forall want: nat ::
      codec.prefix(b, want) == Some(Some(img.payloads[b][..Min(want, |img.payloads[b]|)]))
  }

  ghost predicate NeverStops(codec: Codec, b: Block) {
    forall want: nat :: codec.prefix(b, want) == Some(None)
  }

  ghost predicate NeverStarts(codec: Codec, b: Block) {
    forall want: nat :: codec.prefix(b, want).None?
  }

  // What decode_block hands to fetch: a prefix where that is worth trying, else the whole block. It fails only if the
  // codec does. A read near the front of a block whose codec can stop early decodes no more than a granule or what is
  // needed; any other decodes the whole block.
  function DecodeBlock(img: Image, codec: Codec, b: Block, needed: nat, retryInFull: bool): (r: Option<Bytes>)
    requires Honest(img, codec)
    ensures r.Some? ==> DecodeYields(img, b, needed, retryInFull, r.value)
    ensures Decodable(img, codec, b) ==> r.Some?
    ensures r.Some? && StopsAtOnce(img, codec, b) && !retryInFull && needed <= Min(0x40_0000, img.whole) ==>
              |r.value| == Min(Min(Max(needed, 0x10_0000), img.whole), |img.payloads[b]|)
    ensures b < |img.payloads| && (retryInFull || needed > Min(0x40_0000, img.whole) || NeverStops(codec, b)) ==>
              r == codec.full(b, img.whole) && (r.Some? ==> r.value == img.payloads[b])
    ensures !retryInFull && needed <= Min(0x40_0000, img.whole) && NeverStarts(codec, b) ==> r.None?
  {
    if b >= |img.payloads| then None
    else if !retryInFull && needed <= Min(PREFIX_MAX, img.whole) then
      match codec.prefix(b, Min(Max(needed, PREFIX_GRANULARITY), img.whole))
      case None => None
      case Some(None) => codec.full(b, img.whole)
      case Some(Some(bytes)) => Some(bytes)
    else codec.full(b, img.whole)
  }

  ghost predicate Quiet(img: Image, s: Inner) {
    && Consistent(s) && WithinBudget(s, img.budget)
    && (forall b: Block :: b in s.blocks ==>
          IsReady(s.blocks, b) && b < |img.payloads| && s.blocks[b].bytes <= img.payloads[b])
  }

  // Nothing but the claimed block is being decoded.
  ghost predicate ClaimedQuietly(img: Image, s: Inner, b: Block) {
    && Consistent(s) && WithinBudget(s, img.budget) && IsLoading(s.blocks, b)
    && (forall x: Block :: x in s.blocks && x != b ==>
          IsReady(s.blocks, x) && x < |img.payloads| && s.blocks[x].bytes <= img.payloads[x])
  }

  lemma TouchQuietly(img: Image, s: Inner, b: Block)
    requires Quiet(img, s) && WithinBudget(Touch(s, b), img.budget)
    ensures Quiet(img, Touch(s, b))
  {
    TouchKeeps(s, b);
    hide Consistent, WithinBudget, Without;
  }

  // Claiming a block that has made way, if it was there at all.
  lemma ClaimQuietly(img: Image, s: Inner, t: Inner, b: Block)
    requires Quiet(img, s) && Consistent(t) && WithinBudget(t, img.budget) && t.blocks == (s.blocks - {b})[b := Loading]
    ensures ClaimedQuietly(img, t, b)
  {
    hide Consistent, WithinBudget;
  }

  // With nothing being decoded, a fetch finds its block or claims it.
  lemma QuietEnters(img: Image, s: Inner, b: Block, needed: nat)
    requires Quiet(img, s)
    ensures Consistent(s)
    ensures var (t, entered) := Enter(s, b, needed);
            match entered
            case Hit(bytes) =>
              Quiet(img, t) && FetchOk(img, b, needed, bytes) && b in t.blocks && t.blocks[b] == Ready(bytes)
            case Wait => false
            case Claim(_) => ClaimedQuietly(img, t, b)
  {
    EnterKeeps(s, b, needed, img.budget);
    var t := Enter(s, b, needed).0;
    assert b in s.blocks ==> IsReady(s.blocks, b) && b < |img.payloads| && s.blocks[b].bytes <= img.payloads[b];
    assert Consistent(s);
    hide Consistent, WithinBudget, Without, SumLen, Quiet, ClaimedQuietly;
    if b in s.blocks && |s.blocks[b].bytes| >= needed {
      TouchQuietly(img, s, b);
    } else {
      ClaimQuietly(img, s, t, b);
    }
  }

  lemma AbandonQuietly(img: Image, s: Inner, b: Block)
    requires ClaimedQuietly(img, s, b)
    ensures Quiet(img, Abandon(s, b))
  {
    AbandonKeeps(s, b);
  }

  lemma MarkWholeQuietly(img: Image, s: Inner, b: Block)
    requires ClaimedQuietly(img, s, b)
    ensures ClaimedQuietly(img, MarkWhole(s, b), b)
  {
  }

  // What an exclusive fetch leaves behind and returns: one critical section at the head of the loop, then, for a block
  // it claimed, one decode and the critical sections that publish or abandon it.
  ghost function Fetched(img: Image, codec: Codec, s: Inner, b: Block, needed: nat): (Inner, Option<Bytes>)
    requires Honest(img, codec)
  {
    var (t, entered) := Enter(s, b, needed);
    match entered
    case Hit(bytes) => (t, Some(bytes))
    case Wait => (t, None)
    case Claim(full) =>
      match DecodeBlock(img, codec, b, needed, full)
      case None => (Abandon(t, b), None)
      case Some(bytes) =>
        (Admit(if |bytes| >= img.whole then MarkWhole(t, b) else t, b, bytes, img.budget), Some(bytes))
  }

  // One thread, one fetch, nobody else.
  ghost function Alone(s: Inner, b: Block, needed: nat): State {
    State(s, [Thread([Fetch(b, needed)], [], Idle, [])], 0, map[], map[])
  }

  ghost predicate RunsTo(img: Image, start: State, steps: seq<Step>, cache: Inner, outcome: Outcome) {
    && ValidRun(img, start, steps)
    && Exec(img, start, steps).cache == cache && |Exec(img, start, steps).threads| == 1
    && Exec(img, start, steps).threads[0].results == [outcome]
  }

  lemma RunOne(img: Image, s: State, step: Step, rest: seq<Step>, cache: Inner, outcome: Outcome)
    requires Enabled(img, s, step) && RunsTo(img, Apply(img, s, step), rest, cache, outcome)
    ensures RunsTo(img, s, [step] + rest, cache, outcome)
  {
    hide Apply, Enabled;
    assert ([step] + rest)[1..] == rest;
  }

  lemma RunNone(img: Image, s: State, outcome: Outcome)
    requires |s.threads| == 1 && s.threads[0].results == [outcome]
    ensures RunsTo(img, s, [], s.cache, outcome)
  {
    hide Apply;
  }

  // Once the decode has returned, what is left of the fetch.
  lemma PublishRuns(img: Image, s: State, b: Block, bytes: Bytes) returns (steps: seq<Step>)
    requires |s.threads| == 1 && s.threads[0].pc == Decoded(bytes) && s.threads[0].results == []
    requires |s.threads[0].program| == 1 && s.threads[0].program[0].Fetch? && s.threads[0].program[0].block == b
    ensures RunsTo(img, s, steps,
                   Admit(if |bytes| >= img.whole then MarkWhole(s.cache, b) else s.cache, b, bytes, img.budget),
                   Got(bytes))
  {
    hide Admit, Exec, ValidRun, RunsTo, Enter;
    var s1 := Apply(img, s, SettleWhole(0));
    var s2 := Apply(img, s1, Publish(0));
    var s3 := Apply(img, s2, NotifyAll(0));
    assert s3.threads[0].results == [Got(bytes)];
    RunNone(img, s3, Got(bytes));
    RunOne(img, s2, NotifyAll(0), [], s3.cache, Got(bytes));
    RunOne(img, s1, Publish(0), [NotifyAll(0)] + [], s3.cache, Got(bytes));
    steps := [SettleWhole(0)] + ([Publish(0)] + ([NotifyAll(0)] + []));
    RunOne(img, s, SettleWhole(0), [Publish(0)] + ([NotifyAll(0)] + []), s3.cache, Got(bytes));
  }

  lemma AbandonRuns(img: Image, s: State, b: Block) returns (steps: seq<Step>)
    requires |s.threads| == 1 && s.threads[0].pc == Failing && s.threads[0].results == []
    requires |s.threads[0].program| == 1 && s.threads[0].program[0].Fetch? && s.threads[0].program[0].block == b
    ensures RunsTo(img, s, steps, Abandon(s.cache, b), Failed)
  {
    hide Exec, ValidRun, RunsTo, Enter;
    var s1 := Apply(img, s, Abort(0));
    var s2 := Apply(img, s1, NotifyAll(0));
    assert s2.threads[0].results == [Failed];
    RunNone(img, s2, Failed);
    RunOne(img, s1, NotifyAll(0), [], s2.cache, Failed);
    steps := [Abort(0)] + ([NotifyAll(0)] + []);
    RunOne(img, s, Abort(0), [NotifyAll(0)] + [], s2.cache, Failed);
  }

  // An exclusive fetch does to the cache what some run of the protocol by one thread does, and answers the same.
  lemma FetchIsARun(img: Image, codec: Codec, s: Inner, b: Block, needed: nat) returns (steps: seq<Step>)
    requires Honest(img, codec) && Quiet(img, s)
    ensures var (cache, r) := Fetched(img, codec, s, b, needed);
            RunsTo(img, Alone(s, b, needed), steps, cache, match r case Some(bytes) => Got(bytes) case None => Failed)
  {
    QuietEnters(img, s, b, needed);
    hide Quiet, Consistent, Admit, Exec, ValidRun, RunsTo, Enter;
    var start := Alone(s, b, needed);
    var s1 := Apply(img, start, Begin(0));
    var s2 := Apply(img, s1, TakeLock(0));
    var entered := Enter(s, b, needed).1;
    var (cache, r) := Fetched(img, codec, s, b, needed);
    var outcome := match r case Some(bytes) => Got(bytes) case None => Failed;
    var rest: seq<Step> := [];
    if entered.Hit? {
      RunNone(img, s2, outcome);
    } else {
      var decoded := DecodeBlock(img, codec, b, needed, entered.full);
      if decoded.Some? {
        var s3 := Apply(img, s2, DecodeReturns(0, decoded.value));
        var more := PublishRuns(img, s3, b, decoded.value);
        rest := [DecodeReturns(0, decoded.value)] + more;
        RunOne(img, s2, DecodeReturns(0, decoded.value), more, cache, outcome);
      } else {
        var s3 := Apply(img, s2, DecodeFails(0));
        var more := AbandonRuns(img, s3, b);
        rest := [DecodeFails(0)] + more;
        RunOne(img, s2, DecodeFails(0), more, cache, outcome);
      }
    }
    RunOne(img, s1, TakeLock(0), rest, cache, outcome);
    RunOne(img, start, Begin(0), [TakeLock(0)] + rest, cache, outcome);
    steps := [Begin(0)] + ([TakeLock(0)] + rest);
  }

  class BlockCache {
    const budget: nat
    const inner: Shared

    constructor (budget: nat)
      ensures this.budget == budget && fresh(inner) && inner.View() == EMPTY
    {
      this.budget := budget;
      inner := new Shared();
    }

    // The first critical section of a fetch, taken once per pass of its loop.
    method EnterFetch(b: Block, needed: nat) returns (entered: Entered)
      requires Consistent(inner.View())
      modifies inner
      ensures (inner.View(), entered) == Enter(old(inner.View()), b, needed)
    {
      if b in inner.blocks {
        match inner.blocks[b]
        case Loading => return Wait;
        case Ready(bytes) =>
          if |bytes| >= needed {
            inner.TouchBlock(b);
            return Hit(bytes);
          }
          inner.EvictBlock(b);
          entered := Claim(true);
      } else {
        entered := Claim(b in inner.decodedWhole);
      }
      inner.blocks := inner.blocks[b := Loading];
    }

    method ClearBlocks()
      modifies inner
      ensures inner.View() == Clear(old(inner.View()))
    {
      inner.blocks := map x | x in inner.blocks && inner.blocks[x].Loading? :: Loading;
      inner.order := [];
      inner.resident := 0;
    }

    // A fetch by a caller holding the cache exclusively, so nothing is being decoded elsewhere.
    method Fetch(img: Image, codec: Codec, b: Block, needed: nat) returns (r: Option<Bytes>)
      requires Honest(img, codec) && img.budget == budget && Quiet(img, inner.View())
      modifies inner
      ensures Quiet(img, inner.View())
      ensures r.Some? ==> FetchOk(img, b, needed, r.value) && b in inner.blocks && inner.blocks[b] == Ready(r.value)
      ensures r.None? ==> b !in inner.blocks
      ensures Decodable(img, codec, b) ==> r.Some?
      ensures (inner.View(), r) == Fetched(img, codec, old(inner.View()), b, needed)
    {
      hide Consistent, WithinBudget, Enter, Admit, Quiet, DecodeYields;
      QuietEnters(img, inner.View(), b, needed);
      var entered := EnterFetch(b, needed);
      match entered
      case Hit(bytes) =>
        return Some(bytes);
      case Wait => assert false;
      case Claim(full) =>
        var decoded := DecodeBlock(img, codec, b, needed, full);
        if decoded.None? {
          AbandonQuietly(img, inner.View(), b);
          inner.blocks := inner.blocks - {b};
          return None;
        }
        if |decoded.value| >= img.whole {
          MarkWholeQuietly(img, inner.View(), b);
          inner.decodedWhole := inner.decodedWhole + {b};
        }
        DecodeMeetsFetch(img, b, needed, full, decoded.value);
        PublishQuietly(img, inner.View(), b, needed, decoded.value);
        inner.AdmitBlock(b, decoded.value, budget);
        r := decoded;
    }

    // The bytes of a resident block, for a caller holding the cache exclusively.
    method Resident(b: Block) returns (r: Option<Bytes>)
      modifies inner
      ensures inner.View() == Touch(old(inner.View()), b)
      ensures r == if IsReady(inner.blocks, b) then Some(inner.blocks[b].bytes) else None
    {
      inner.TouchBlock(b);
      if b in inner.blocks && inner.blocks[b].Ready? {
        r := Some(inner.blocks[b].bytes);
      } else {
        r := None;
      }
    }
  }

  lemma PublishQuietly(img: Image, s: Inner, b: Block, needed: nat, bytes: Bytes)
    requires ClaimedQuietly(img, s, b) && FetchOk(img, b, needed, bytes)
    ensures Consistent(s)
    ensures Quiet(img, Admit(s, b, bytes, img.budget))
    ensures b in Admit(s, b, bytes, img.budget).blocks && Admit(s, b, bytes, img.budget).blocks[b] == Ready(bytes)
  {
    AdmitKeeps(s, b, bytes, img.budget);
    var k := AdmitEvictsOldest(s, b, bytes, img.budget);
  }
}
