/**
 How often a block is decoded when nothing forces a repeat: no decode fails,
 nobody clears the cache, reads stay inside their blocks, and the budget holds
 every payload. Then a block is decoded at most twice: a prefix, then the whole.
 */
module CacheEconomy {
  import opened Common
  import opened CacheModel
  import opened CacheProtocol
  import opened CacheRuns

  function PayloadBytes(payloads: seq<Bytes>): nat {
    if payloads == [] then 0 else PayloadBytes(payloads[..|payloads| - 1]) + |payloads[|payloads| - 1]|
  }

  predicate Roomy(img: Image) {
    && PayloadBytes(img.payloads) <= img.budget
    && (forall b :: 0 <= b < |img.payloads| ==> |img.payloads[b]| <= img.whole)
  }

  predicate InRange(img: Image, call: Call) {
    call.Fetch? && call.block < |img.payloads| && call.needed <= |img.payloads[call.block]|
  }

  ghost predicate AllInRange(img: Image, s: State) {
    forall t, i :: 0 <= t < |s.threads| && 0 <= i < |s.threads[t].program| ==> InRange(img, s.threads[t].program[i])
  }

  // Bytes in hand for a block fit the decodes started on it.
  predicate Earned(img: Image, b: Block, log: seq<bool>, bytes: Bytes) {
    b < |img.payloads| && (log == [false] || (log == [false, true] && bytes == img.payloads[b]))
  }

  ghost predicate HeldEarned(img: Image, s: State, t: nat, b: Block)
    requires HoldsBlock(s, t, b)
  {
    match s.threads[t].pc
    case Decoding(full) => Log(s, b) == if full then [false, true] else [false]
    case Decoded(bytes) => Earned(img, b, Log(s, b), bytes)
    case Publishing(bytes) => Earned(img, b, Log(s, b), bytes)
    case _ => false
  }

  // The decodes started on `b` so far are no more than its present state accounts for.
  ghost predicate Thrifty(img: Image, s: State, b: Block) {
    && (b !in s.cache.blocks ==> Log(s, b) == [] && b !in s.cache.decodedWhole)
    && (IsReady(s.cache.blocks, b) ==> Earned(img, b, Log(s, b), s.cache.blocks[b].bytes))
    && (forall t: nat :: HoldsBlock(s, t, b) ==> HeldEarned(img, s, t, b))
  }

  // ------------------------------------------------------ nothing is evicted

  function Payloads(img: Image): map<Block, Entry> {
    map b | 0 <= b < |img.payloads| :: Ready(img.payloads[b])
  }

  lemma {:induction false} DistinctBlocksFit(order: seq<Block>, img: Image, n: nat)
    requires NoDup(order) && n <= |img.payloads|
    requires forall b: Block :: b in order ==> b < n
    ensures SumLen(order, Payloads(img)) <= PayloadBytes(img.payloads[..n])
    decreases n
  {
    if order != [] {
      assert order[0] in order;
      assert img.payloads[..n][..n - 1] == img.payloads[..n - 1];
      WithoutFacts(order, n - 1);
      if n - 1 in order {
        SumLenWithout(order, n - 1, Payloads(img));
        DistinctBlocksFit(Without(order, n - 1), img, n - 1);
      } else {
        DistinctBlocksFit(order, img, n - 1);
      }
    }
  }

  lemma {:induction false} SumLenMonotone(order: seq<Block>, blocks: map<Block, Entry>, blocks': map<Block, Entry>)
    requires forall b: Block :: b in order ==> Len(blocks, b) <= Len(blocks', b)
    ensures SumLen(order, blocks) <= SumLen(order, blocks')
  {
    if order != [] {
      assert order[0] in order && forall b: Block :: b in order[1..] ==> b in order;
      SumLenMonotone(order[1..], blocks, blocks');
    }
  }

  // A resident set of distinct blocks never overflows a budget that holds them all.
  lemma NothingEvicted(img: Image, s: State, b: Block, bytes: Bytes)
    requires Consistent(s.cache) && Truthful(img, s) && Roomy(img)
    requires IsLoading(s.cache.blocks, b) && b < |img.payloads| && bytes <= img.payloads[b]
    ensures Admit(s.cache, b, bytes, img.budget).blocks == s.cache.blocks[b := Ready(bytes)]
  {
    var order := s.cache.order;
    assert b !in order && Without(order, b) == order;
    var blocks := s.cache.blocks[b := Ready(bytes)];
    assert NoDup(order + [b]);
    SumLenSnoc(order, b, blocks);
    SumLenFrame(order, s.cache.blocks - {b}, blocks);
    SumLenMonotone(order + [b], blocks, Payloads(img));
    assert img.payloads[..|img.payloads|] == img.payloads;
    DistinctBlocksFit(order + [b], img, |img.payloads|);
    assert Keep(order, s.cache.blocks - {b}, |bytes|, img.budget) == order;
  }

  // ------------------------------------------------------ steps stay thrifty

  lemma LockerThrifty(img: Image, s: State, step: Step, b: Block)
    requires Inv(img, s) && Thrifty(img, s, b) && AllInRange(img, s)
    requires Enabled(img, s, step) && step.TakeLock? && Target(s.threads[step.t]) == b
    ensures Thrifty(img, Apply(img, s, step), b)
  {
    var th := s.threads[step.t];
    var s' := Apply(img, s, step);
    assert InRange(img, th.program[|th.results|]);
    OthersHoldings(img, s, step);
    forall t: nat | HoldsBlock(s', t, b) ensures HeldEarned(img, s', t, b) {
      if t != step.t {
        assert HoldsBlock(s, t, b) && HeldEarned(img, s, t, b) && IsLoading(s.cache.blocks, b);
      }
    }
  }

  lemma HolderThrifty(img: Image, s: State, step: Step, b: Block)
    requires Inv(img, s) && Thrifty(img, s, b) && Roomy(img)
    requires Enabled(img, s, step) && !step.DecodeFails? && HoldsBlock(s, step.t, b)
    ensures Thrifty(img, Apply(img, s, step), b)
  {
    var th := s.threads[step.t];
    var s' := Apply(img, s, step);
    assert HeldEarned(img, s, step.t, b) && ThreadOk(img, th);
    OthersHoldings(img, s, step);
    if step.Publish? {
      NothingEvicted(img, s, b, th.pc.bytes);
    }
    assert forall t: nat :: HoldsBlock(s', t, b) ==> t == step.t || HoldsBlock(s, t, b);
  }

  // Block `b` is as it was.
  ghost predicate Unchanged(s: State, s': State, b: Block) {
    && (b in s'.cache.blocks <==> b in s.cache.blocks)
    && (b in s.cache.blocks ==> s'.cache.blocks[b] == s.cache.blocks[b])
    && (b in s'.cache.decodedWhole <==> b in s.cache.decodedWhole)
    && Log(s', b) == Log(s, b)
  }

  lemma PublishLeaves(img: Image, s: State, step: Step, b: Block)
    requires Inv(img, s) && Roomy(img) && Enabled(img, s, step) && step.Publish? && !HoldsBlock(s, step.t, b)
    ensures Unchanged(s, Apply(img, s, step), b)
  {
    var th := s.threads[step.t];
    assert HoldsBlock(s, step.t, Target(th)) && ThreadOk(img, th);
    NothingEvicted(img, s, Target(th), th.pc.bytes);
  }

  lemma LockLeaves(img: Image, s: State, step: Step, b: Block)
    requires Enabled(img, s, step) && step.TakeLock? && Target(s.threads[step.t]) != b
    ensures Unchanged(s, Apply(img, s, step), b) && !HoldsBlock(Apply(img, s, step), step.t, b)
  {
    hide SumLen, Without;
  }

  // What a step on some other block, or on none, leaves of block `b`.
  lemma BystanderUnchanged(img: Image, s: State, step: Step, b: Block)
    requires Inv(img, s) && Roomy(img)
    requires Enabled(img, s, step) && !step.DecodeFails? && !step.Abort? && !step.RunClear?
    requires !HoldsBlock(s, step.t, b)
    requires step.TakeLock? ==> Target(s.threads[step.t]) != b
    ensures Unchanged(s, Apply(img, s, step), b) && !HoldsBlock(Apply(img, s, step), step.t, b)
  {
    HoldingAfter(img, s, step, b);
    if step.TakeLock? {
      LockLeaves(img, s, step, b);
    } else if step.Publish? {
      PublishLeaves(img, s, step, b);
    } else {
      hide Inv, Roomy, WakeAll, HoldsBlock, AfterLock, Admit;
      if step.SettleWhole? {
        HoldersBlock(s, step.t);
      }
    }
  }

  lemma HoldersBlock(s: State, t: nat)
    requires t < |s.threads| && Holds(s.threads[t])
    ensures HoldsBlock(s, t, Target(s.threads[t]))
  {
  }

  lemma BystanderThrifty(img: Image, s: State, step: Step, b: Block)
    requires Inv(img, s) && Thrifty(img, s, b) && Roomy(img)
    requires Enabled(img, s, step) && !step.DecodeFails? && !step.Abort? && !step.RunClear?
    requires !HoldsBlock(s, step.t, b)
    requires step.TakeLock? ==> Target(s.threads[step.t]) != b
    ensures Thrifty(img, Apply(img, s, step), b)
  {
    var s' := Apply(img, s, step);
    BystanderUnchanged(img, s, step, b);
    OthersHoldings(img, s, step);
    OthersKept(img, s, step);
    forall t: nat | HoldsBlock(s', t, b) ensures HeldEarned(img, s', t, b) {
      assert t != step.t && HeldEarned(img, s, t, b);
    }
  }

  ghost predicate AllThrifty(img: Image, s: State) {
    forall b: Block :: Thrifty(img, s, b)
  }

  // With no failures and no clears in the programs, neither step can come up.
  lemma NeitherAbortsNorClears(img: Image, s: State, step: Step)
    requires Inv(img, s) && AllThrifty(img, s) && AllInRange(img, s)
    requires Enabled(img, s, step) && !step.DecodeFails?
    ensures !step.Abort? && !step.RunClear?
  {
    var th := s.threads[step.t];
    assert |th.results| < |th.program| ==> InRange(img, th.program[|th.results|]);
    assert Holds(th) ==> HoldsBlock(s, step.t, Target(th)) && Thrifty(img, s, Target(th));
  }

  lemma StepThrifty(img: Image, s: State, step: Step)
    requires Inv(img, s) && AllThrifty(img, s) && AllInRange(img, s) && Roomy(img)
    requires Enabled(img, s, step) && !step.DecodeFails?
    ensures AllThrifty(img, Apply(img, s, step))
  {
    var th := s.threads[step.t];
    NeitherAbortsNorClears(img, s, step);
    forall b: Block ensures Thrifty(img, Apply(img, s, step), b) {
      assert Thrifty(img, s, b);
      if HoldsBlock(s, step.t, b) {
        HolderThrifty(img, s, step, b);
      } else if step.TakeLock? && Target(th) == b {
        LockerThrifty(img, s, step, b);
      } else {
        BystanderThrifty(img, s, step, b);
      }
    }
  }

  lemma ProgramsInRange(img: Image, s: State, step: Step)
    requires AllInRange(img, s) && Enabled(img, s, step)
    ensures AllInRange(img, Apply(img, s, step))
  {
    OthersKept(img, s, step);
    assert Apply(img, s, step).threads[step.t].program == s.threads[step.t].program;
  }

  lemma {:induction false} RunThrifty(img: Image, s: State, steps: seq<Step>)
    requires Inv(img, s) && AllThrifty(img, s) && AllInRange(img, s) && Roomy(img)
    requires ValidRun(img, s, steps)
    requires forall i :: 0 <= i < |steps| ==> !steps[i].DecodeFails?
    ensures AllThrifty(img, Exec(img, s, steps)) && Inv(img, Exec(img, s, steps))
    decreases |steps|
  {
    if steps != [] {
      StepKeepsInv(img, s, steps[0]);
      StepThrifty(img, s, steps[0]);
      ProgramsInRange(img, s, steps[0]);
      RunThrifty(img, Apply(img, s, steps[0]), steps[1..]);
    }
  }

  // Any interleaving decodes each block at most twice: one prefix, then the whole.
  lemma AtMostOnePrefixThenTheWhole(img: Image, programs: seq<seq<Call>>, steps: seq<Step>, b: Block)
    requires Roomy(img)
    requires forall t, i :: 0 <= t < |programs| && 0 <= i < |programs[t]| ==> InRange(img, programs[t][i])
    requires ValidRun(img, Init(programs), steps)
    requires forall i :: 0 <= i < |steps| ==> !steps[i].DecodeFails?
    ensures Log(Exec(img, Init(programs), steps), b) <= [false, true]
  {
    InitInv(img, programs);
    RunThrifty(img, Init(programs), steps);
    var s := Exec(img, Init(programs), steps);
    assert Thrifty(img, s, b);
    if IsLoading(s.cache.blocks, b) {
      var t: nat :| HoldsBlock(s, t, b);
      assert HeldEarned(img, s, t, b);
    }
  }
}
