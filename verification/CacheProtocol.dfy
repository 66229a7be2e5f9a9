/**
 Any number of threads sharing one block cache. Each step is one critical
 section, one decode, or one notification; every interleaving of the steps is
 a run. Sleeping, notifying and waking are separate steps, and decoding happens
 between critical sections.
 */
module CacheProtocol {
  import opened Common
  import opened CacheModel

  const PREFIX_GRANULARITY: nat := 0x10_0000
  const PREFIX_MAX: nat := 0x40_0000

  // The true payload of each block, the block size, and the cache's byte budget.
  datatype Image = Image(payloads: seq<Bytes>, whole: nat, budget: nat)

  datatype Call = Fetch(block: Block, needed: nat) | ClearAll

  datatype Outcome = Got(bytes: Bytes) | Failed | Cleared

  // Where a thread stands within its current call.
  datatype Pc =
    | Idle                          // between calls
    | AtLock                        // about to take the lock at the loop head
    | Asleep                        // waiting on the condition variable
    | Decoding(full: bool)          // claimed the block, lock released
    | Decoded(bytes: Bytes)         // decode returned
    | Publishing(bytes: Bytes)      // whole-block mark settled, about to admit
    | Failing                       // decode failed or panicked, marker still armed
    | Notifying(outcome: Outcome)   // lock released, notification still to send

  // `decodes` is history: the index of the call in progress each time decode was run.
  datatype Thread = Thread(program: seq<Call>, results: seq<Outcome>, pc: Pc, decodes: seq<nat>)

  // `clock`, `lastUse` and `starts` are history: they record when each block was
  // last handed out or admitted and which decodes were started, and steer nothing.
  datatype State = State(
    cache: Inner,
    threads: seq<Thread>,
    clock: nat,
    lastUse: map<Block, nat>,
    starts: map<Block, seq<bool>>)

  datatype Step =
    | Begin(t: nat)
    | RunClear(t: nat)
    | TakeLock(t: nat)
    | DecodeReturns(t: nat, bytes: Bytes)
    | DecodeFails(t: nat)
    | SettleWhole(t: nat)
    | Publish(t: nat)
    | Abort(t: nat)
    | NotifyAll(t: nat)
    | WakeSpuriously(t: nat)

  // ------------------------------------------------------------ decoding

  // A prefix decode may run only when the claim allows it and the read is near the front.
  predicate PrefixAllowed(img: Image, needed: nat, full: bool) {
    !full && needed <= Min(PREFIX_MAX, img.whole)
  }

  // What a successful decode may return: the block's payload, or, where a prefix is
  // allowed and the codec can stop early, a prefix reaching the rounded-up request.
  predicate DecodeYields(img: Image, b: Block, needed: nat, full: bool, bytes: Bytes) {
    && b < |img.payloads|
    && var p := img.payloads[b];
    || (bytes == p && |p| <= img.whole)
    || (&& PrefixAllowed(img, needed, full)
        && bytes <= p
        && |bytes| >= Min(Min(Max(needed, PREFIX_GRANULARITY), img.whole), |p|))
  }

  // What a fetch promises its caller.
  predicate FetchOk(img: Image, b: Block, needed: nat, bytes: Bytes) {
    && b < |img.payloads|
    && bytes <= img.payloads[b]
    && |bytes| >= Min(needed, |img.payloads[b]|)
  }

  lemma DecodeMeetsFetch(img: Image, b: Block, needed: nat, full: bool, bytes: Bytes)
    requires DecodeYields(img, b, needed, full, bytes)
    ensures FetchOk(img, b, needed, bytes)
  {
  }

  // --------------------------------------------------------------- steps

  predicate InCall(th: Thread) {
    th.pc != Idle && |th.results| < |th.program| && th.program[|th.results|].Fetch?
  }

  function Target(th: Thread): Block
    requires InCall(th)
  {
    th.program[|th.results|].block
  }

  function Needed(th: Thread): nat
    requires InCall(th)
  {
    th.program[|th.results|].needed
  }

  // The thread carries an armed in-flight marker, or is about to admit what it decoded.
  predicate Holds(th: Thread) {
    InCall(th) && (th.pc.Decoding? || th.pc.Decoded? || th.pc.Publishing? || th.pc.Failing?)
  }

  predicate Enabled(img: Image, s: State, step: Step) {
    && step.t < |s.threads|
    && var th := s.threads[step.t];
    match step
    case Begin(_) => th.pc == Idle && |th.results| < |th.program| && th.program[|th.results|].Fetch?
    case RunClear(_) => th.pc == Idle && |th.results| < |th.program| && th.program[|th.results|].ClearAll?
    case TakeLock(_) => InCall(th) && th.pc == AtLock
    case DecodeReturns(_, bytes) =>
      InCall(th) && th.pc.Decoding? && DecodeYields(img, Target(th), Needed(th), th.pc.full, bytes)
    case DecodeFails(_) => InCall(th) && th.pc.Decoding?
    case SettleWhole(_) => InCall(th) && th.pc.Decoded?
    case Publish(_) => InCall(th) && th.pc.Publishing?
    case Abort(_) => InCall(th) && th.pc.Failing?
    case NotifyAll(_) => InCall(th) && th.pc.Notifying?
    case WakeSpuriously(_) => InCall(th) && th.pc == Asleep
  }

  function Finished(th: Thread, outcome: Outcome): Thread {
    th.(results := th.results + [outcome], pc := Idle)
  }

  function Woken(th: Thread): Thread {
    if th.pc == Asleep then th.(pc := AtLock) else th
  }

  function WakeAll(threads: seq<Thread>): seq<Thread> {
    seq(|threads|, i requires 0 <= i < |threads| => Woken(threads[i]))
  }

  function Used(s: State, b: Block): State {
    s.(clock := s.clock + 1, lastUse := s.lastUse[b := s.clock])
  }

  function Log(s: State, b: Block): seq<bool> {
    if b in s.starts then s.starts[b] else []
  }

  function WithThread(s: State, t: nat, th: Thread): State
    requires t < |s.threads|
  {
    s.(threads := s.threads[t := th])
  }

  function AfterLock(s: State, t: nat): State
    requires t < |s.threads| && InCall(s.threads[t])
  {
    var th := s.threads[t];
    var b := Target(th);
    var (cache, entered) := Enter(s.cache, b, Needed(th));
    match entered
    case Hit(bytes) => WithThread(Used(s.(cache := cache), b), t, Finished(th, Got(bytes)))
    case Wait => WithThread(s.(cache := cache), t, th.(pc := Asleep))
    case Claim(full) =>
      WithThread(s.(cache := cache, starts := s.starts[b := Log(s, b) + [full]]), t,
                 th.(pc := Decoding(full), decodes := th.decodes + [|th.results|]))
  }

  function Apply(img: Image, s: State, step: Step): State
    requires Enabled(img, s, step)
  {
    var t := step.t;
    var th := s.threads[t];
    match step
    case Begin(_) => WithThread(s, t, th.(pc := AtLock))
    case RunClear(_) => WithThread(s.(cache := Clear(s.cache)), t, Finished(th, Cleared))
    case TakeLock(_) => AfterLock(s, t)
    case DecodeReturns(_, bytes) => WithThread(s, t, th.(pc := Decoded(bytes)))
    case DecodeFails(_) => WithThread(s, t, th.(pc := Failing))
    case SettleWhole(_) =>
      var cache := if |th.pc.bytes| >= img.whole then MarkWhole(s.cache, Target(th)) else s.cache;
      WithThread(s.(cache := cache), t, th.(pc := Publishing(th.pc.bytes)))
    case Publish(_) =>
      var cache := Admit(s.cache, Target(th), th.pc.bytes, img.budget);
      WithThread(Used(s.(cache := cache), Target(th)), t, th.(pc := Notifying(Got(th.pc.bytes))))
    case Abort(_) =>
      WithThread(s.(cache := Abandon(s.cache, Target(th))), t, th.(pc := Notifying(Failed)))
    case NotifyAll(_) =>
      var threads := WakeAll(s.threads);
      s.(threads := threads[t := Finished(th, th.pc.outcome)])
    case WakeSpuriously(_) => WithThread(s, t, th.(pc := AtLock))
  }

  function Init(programs: seq<seq<Call>>): State {
    State(EMPTY, seq(|programs|, i requires 0 <= i < |programs| => Thread(programs[i], [], Idle, [])), 0, map[], map[])
  }

  // ---------------------------------------------------------------- runs

  predicate ValidRun(img: Image, s: State, steps: seq<Step>)
    decreases |steps|
  {
    steps != [] ==> Enabled(img, s, steps[0]) && ValidRun(img, Apply(img, s, steps[0]), steps[1..])
  }

  function Exec(img: Image, s: State, steps: seq<Step>): State
    requires ValidRun(img, s, steps)
    decreases |steps|
  {
    if steps == [] then s else Exec(img, Apply(img, s, steps[0]), steps[1..])
  }

  // ----------------------------------------------------------- invariants

  predicate OutcomeOk(img: Image, call: Call, outcome: Outcome) {
    match call
    case Fetch(b, needed) => outcome.Failed? || (outcome.Got? && FetchOk(img, b, needed, outcome.bytes))
    case ClearAll => outcome.Cleared?
  }

  predicate Increasing(ks: seq<nat>) {
    forall i, j :: 0 <= i < j < |ks| ==> ks[i] < ks[j]
  }

  predicate Past(pc: Pc) {
    !(pc.Idle? || pc.AtLock? || pc.Asleep?)
  }

  ghost predicate ThreadOk(img: Image, th: Thread) {
    && |th.results| <= |th.program|
    && (th.pc != Idle ==> InCall(th))
    && (forall i :: 0 <= i < |th.results| ==> OutcomeOk(img, th.program[i], th.results[i]))
    && (th.pc.Decoded? ==> FetchOk(img, Target(th), Needed(th), th.pc.bytes))
    && (th.pc.Publishing? ==> FetchOk(img, Target(th), Needed(th), th.pc.bytes))
    && (th.pc.Notifying? ==> OutcomeOk(img, th.program[|th.results|], th.pc.outcome))
    && Increasing(th.decodes)
    && (forall i :: 0 <= i < |th.decodes| ==> th.decodes[i] < |th.results| + if Past(th.pc) then 1 else 0)
  }

  ghost predicate ThreadsOk(img: Image, s: State) {
    forall t :: 0 <= t < |s.threads| ==> ThreadOk(img, s.threads[t])
  }

  ghost predicate HoldsBlock(s: State, t: nat, b: Block) {
    t < |s.threads| && Holds(s.threads[t]) && Target(s.threads[t]) == b
  }

  // Exactly the blocks being decoded are marked, each by exactly one thread.
  ghost predicate Ownership(s: State) {
    && (forall t: nat, b: Block :: HoldsBlock(s, t, b) ==> IsLoading(s.cache.blocks, b))
    && (forall t: nat, u: nat, b: Block :: HoldsBlock(s, t, b) && HoldsBlock(s, u, b) ==> t == u)
    && (forall b: Block :: IsLoading(s.cache.blocks, b) ==> exists t: nat :: HoldsBlock(s, t, b))
  }

  ghost predicate Truthful(img: Image, s: State) {
    forall b: Block :: IsReady(s.cache.blocks, b) ==>
      b < |img.payloads| && s.cache.blocks[b].bytes <= img.payloads[b]
  }

  ghost predicate AsleepOn(s: State, t: nat, b: Block) {
    t < |s.threads| && InCall(s.threads[t]) && s.threads[t].pc == Asleep && Target(s.threads[t]) == b
  }

  ghost predicate NotifyPending(s: State) {
    exists u :: 0 <= u < |s.threads| && s.threads[u].pc.Notifying?
  }

  ghost predicate NoLostWakeup(s: State) {
    forall t: nat, b: Block :: AsleepOn(s, t, b) ==> IsLoading(s.cache.blocks, b) || NotifyPending(s)
  }

  ghost predicate OldestFirst(s: State) {
    SortedByUse(s.cache.order, s.lastUse, s.clock)
  }

  // A block resident in whole is known to have been decoded in whole.
  ghost predicate WholeResident(img: Image, s: State) {
    forall b: Block :: IsReady(s.cache.blocks, b) && |s.cache.blocks[b].bytes| >= img.whole ==>
      b in s.cache.decodedWhole
  }

  ghost predicate WholeHeldBy(img: Image, s: State, t: nat, b: Block)
    requires HoldsBlock(s, t, b)
  {
    match s.threads[t].pc
    case Decoding(full) => b in s.cache.decodedWhole ==> full
    case Publishing(bytes) => |bytes| >= img.whole ==> b in s.cache.decodedWhole
    case _ => true
  }

  // No decode under way on a block known to have been decoded in whole is a
  // partial one, and a whole block is marked before it is published.
  ghost predicate WholeHeld(img: Image, s: State) {
    forall t: nat, b: Block :: HoldsBlock(s, t, b) ==> WholeHeldBy(img, s, t, b)
  }

  ghost predicate Inv(img: Image, s: State) {
    && Consistent(s.cache)
    && WithinBudget(s.cache, img.budget)
    && ThreadsOk(img, s)
    && Ownership(s)
    && Truthful(img, s)
    && NoLostWakeup(s)
    && OldestFirst(s)
    && WholeResident(img, s)
    && WholeHeld(img, s)
  }

  lemma InitInv(img: Image, programs: seq<seq<Call>>)
    ensures Inv(img, Init(programs))
  {
  }

  // ------------------------------------------------- steps keep the invariant

  lemma CacheKept(img: Image, s: State, step: Step)
    requires Consistent(s.cache) && WithinBudget(s.cache, img.budget) && Ownership(s) && Enabled(img, s, step)
    ensures Consistent(Apply(img, s, step).cache) && WithinBudget(Apply(img, s, step).cache, img.budget)
  {
    var th := s.threads[step.t];
    match step
    case RunClear(_) => ClearKeeps(s.cache);
    case TakeLock(_) => EnterKeeps(s.cache, Target(th), Needed(th), img.budget);
    case Publish(_) => AdmitKeeps(s.cache, Target(th), th.pc.bytes, img.budget);
    case Abort(_) =>
      assert HoldsBlock(s, step.t, Target(th));
      AbandonKeeps(s.cache, Target(th));
    case _ =>
  }

  // A step leaves the other threads alone, except that a notification wakes them.
  lemma OthersKept(img: Image, s: State, step: Step)
    requires Enabled(img, s, step)
    ensures |Apply(img, s, step).threads| == |s.threads|
    ensures forall u :: 0 <= u < |s.threads| && u != step.t ==>
              Apply(img, s, step).threads[u] == (if step.NotifyAll? then Woken(s.threads[u]) else s.threads[u])
  {
  }

  lemma OthersHoldings(img: Image, s: State, step: Step)
    requires Enabled(img, s, step)
    ensures forall u: nat, b: Block :: u != step.t ==> HoldsBlock(Apply(img, s, step), u, b) == HoldsBlock(s, u, b)
    ensures forall u: nat, b: Block :: u != step.t && AsleepOn(Apply(img, s, step), u, b) ==> AsleepOn(s, u, b)
  {
    OthersKept(img, s, step);
  }

  lemma LockerOk(img: Image, s: State, step: Step)
    requires ThreadsOk(img, s) && Truthful(img, s) && Enabled(img, s, step) && step.TakeLock?
    ensures ThreadOk(img, Apply(img, s, step).threads[step.t])
  {
    var th := s.threads[step.t];
    assert ThreadOk(img, th);
    var entered := Enter(s.cache, Target(th), Needed(th)).1;
    if entered.Hit? {
      assert IsReady(s.cache.blocks, Target(th));
      assert OutcomeOk(img, th.program[|th.results|], Got(entered.bytes));
    }
  }

  lemma FinishedOk(img: Image, th: Thread, outcome: Outcome)
    requires ThreadOk(img, th) && |th.results| < |th.program|
    requires OutcomeOk(img, th.program[|th.results|], outcome)
    ensures ThreadOk(img, Finished(th, outcome))
  {
  }

  lemma StepperOk(img: Image, s: State, step: Step)
    requires ThreadsOk(img, s) && Truthful(img, s) && Enabled(img, s, step)
    ensures ThreadOk(img, Apply(img, s, step).threads[step.t])
  {
    var th := s.threads[step.t];
    assert ThreadOk(img, th);
    if step.TakeLock? {
      LockerOk(img, s, step);
      return;
    }
    hide Admit, Enter, Clear, Abandon, MarkWhole, WakeAll, Truthful, ThreadsOk, AfterLock;
    if step.RunClear? || step.NotifyAll? {
      FinishedOk(img, th, if step.RunClear? then Cleared else th.pc.outcome);
    } else if step.DecodeReturns? {
      DecodeMeetsFetch(img, Target(th), Needed(th), th.pc.full, step.bytes);
    }
  }

  lemma ThreadsKept(img: Image, s: State, step: Step)
    requires ThreadsOk(img, s) && Truthful(img, s) && Enabled(img, s, step)
    ensures ThreadsOk(img, Apply(img, s, step))
  {
    var s' := Apply(img, s, step);
    OthersKept(img, s, step);
    StepperOk(img, s, step);
    forall u | 0 <= u < |s'.threads| ensures ThreadOk(img, s'.threads[u]) {
      assert ThreadOk(img, s.threads[u]);
    }
  }

  // A block is marked after a step iff the stepping thread holds it, or it was
  // marked before and the stepping thread did not give it up.
  ghost predicate MarkFollows(img: Image, s: State, step: Step, x: Block)
    requires Enabled(img, s, step)
  {
    var s' := Apply(img, s, step);
    && (IsLoading(s'.cache.blocks, x) <==>
          HoldsBlock(s', step.t, x) || (IsLoading(s.cache.blocks, x) && !HoldsBlock(s, step.t, x)))
    && (HoldsBlock(s', step.t, x) ==> HoldsBlock(s, step.t, x) || !IsLoading(s.cache.blocks, x))
  }

  lemma AdmitKeepsMarks(s: Inner, b: Block, bytes: Bytes, budget: nat, x: Block)
    requires Consistent(s)
    ensures IsLoading(Admit(s, b, bytes, budget).blocks, x) <==> x != b && IsLoading(s.blocks, x)
  {
    var k := AdmitEvictsOldest(s, b, bytes, budget);
    WithoutFacts(s.order, b);
    CutIsDisjoint(Without(s.order, b), k);
  }

  lemma EnterKeepsMarks(s: Inner, b: Block, needed: nat, x: Block)
    ensures var (t, entered) := Enter(s, b, needed);
            IsLoading(t.blocks, x) <==> IsLoading(s.blocks, x) || (x == b && entered.Claim?)
    ensures Enter(s, b, needed).1.Claim? ==> !IsLoading(s.blocks, b)
  {
  }

  // Which marks the shared state carries after a step.
  lemma MarksAfter(img: Image, s: State, step: Step, x: Block)
    requires Consistent(s.cache) && Enabled(img, s, step)
    ensures var s' := Apply(img, s, step);
            IsLoading(s'.cache.blocks, x) <==>
              if step.Publish? || step.Abort? then IsLoading(s.cache.blocks, x) && !HoldsBlock(s, step.t, x)
              else IsLoading(s.cache.blocks, x) || (step.TakeLock? && HoldsBlock(s', step.t, x))
    ensures step.TakeLock? && HoldsBlock(Apply(img, s, step), step.t, x) ==> !IsLoading(s.cache.blocks, x)
  {
    var th := s.threads[step.t];
    match step
    case Publish(_) => AdmitKeepsMarks(s.cache, Target(th), th.pc.bytes, img.budget, x);
    case TakeLock(_) => EnterKeepsMarks(s.cache, Target(th), Needed(th), x);
    case _ =>
  }

  // Who holds what after a step, as far as the stepping thread is concerned.
  lemma HoldingAfter(img: Image, s: State, step: Step, x: Block)
    requires Enabled(img, s, step)
    ensures step.TakeLock? ==> !HoldsBlock(s, step.t, x)
    ensures !step.TakeLock? ==>
              (HoldsBlock(Apply(img, s, step), step.t, x) <==>
                 HoldsBlock(s, step.t, x) && !step.Publish? && !step.Abort?)
  {
  }

  lemma MarksFollowHolder(img: Image, s: State, step: Step, x: Block)
    requires Consistent(s.cache) && Ownership(s) && Enabled(img, s, step)
    ensures MarkFollows(img, s, step, x)
  {
    assert HoldsBlock(s, step.t, x) ==> IsLoading(s.cache.blocks, x);
    MarksAfter(img, s, step, x);
    HoldingAfter(img, s, step, x);
  }

  lemma OwnershipKept(img: Image, s: State, step: Step)
    requires Consistent(s.cache) && Ownership(s) && Enabled(img, s, step)
    ensures Ownership(Apply(img, s, step))
  {
    OthersHoldings(img, s, step);
    var s' := Apply(img, s, step);
    forall x: Block ensures MarkFollows(img, s, step, x) {
      MarksFollowHolder(img, s, step, x);
    }
    forall t: nat, b: Block | HoldsBlock(s', t, b) ensures IsLoading(s'.cache.blocks, b) {
      assert MarkFollows(img, s, step, b);
    }
    forall t: nat, u: nat, b: Block | HoldsBlock(s', t, b) && HoldsBlock(s', u, b) ensures t == u {
      assert MarkFollows(img, s, step, b);
    }
    forall b: Block | IsLoading(s'.cache.blocks, b) ensures exists t: nat :: HoldsBlock(s', t, b) {
      assert MarkFollows(img, s, step, b);
      if !HoldsBlock(s', step.t, b) {
        var t: nat :| HoldsBlock(s, t, b);
        assert HoldsBlock(s', t, b);
      }
    }
  }

  lemma NoWakeupLost(img: Image, s: State, step: Step)
    requires Consistent(s.cache) && Ownership(s) && NoLostWakeup(s) && Enabled(img, s, step)
    ensures NoLostWakeup(Apply(img, s, step))
  {
    OthersKept(img, s, step);
    OthersHoldings(img, s, step);
    var s' := Apply(img, s, step);
    forall u: nat, b: Block | AsleepOn(s', u, b) ensures IsLoading(s'.cache.blocks, b) || NotifyPending(s') {
      MarksFollowHolder(img, s, step, b);
      if u == step.t {
        assert IsLoading(s.cache.blocks, b);
      } else if !IsLoading(s.cache.blocks, b) {
        var n :| 0 <= n < |s.threads| && s.threads[n].pc.Notifying?;
        assert s'.threads[n].pc.Notifying?;
      } else if HoldsBlock(s, step.t, b) && !HoldsBlock(s', step.t, b) {
        assert s'.threads[step.t].pc.Notifying?;
      }
    }
  }

  lemma AdmitEntries(s: Inner, b: Block, bytes: Bytes, budget: nat, x: Block)
    ensures var t := Admit(s, b, bytes, budget);
            && t.decodedWhole == s.decodedWhole
            && (x in t.blocks ==>
                  if x == b then t.blocks[x] == Ready(bytes) else x in s.blocks && t.blocks[x] == s.blocks[x])
  {
    hide Keep, Without, SumLen;
  }

  // What is resident after a step was resident before it, or has just been published.
  lemma ReadyAfter(img: Image, s: State, step: Step, x: Block)
    requires Enabled(img, s, step)
    ensures var s', th := Apply(img, s, step), s.threads[step.t];
            && (x in s.cache.decodedWhole ==> x in s'.cache.decodedWhole)
            && (IsReady(s'.cache.blocks, x) ==>
                  if step.Publish? && x == Target(th) then s'.cache.blocks[x] == Ready(th.pc.bytes)
                  else IsReady(s.cache.blocks, x) && s'.cache.blocks[x] == s.cache.blocks[x])
  {
    var th := s.threads[step.t];
    if step.Publish? {
      AdmitEntries(s.cache, Target(th), th.pc.bytes, img.budget, x);
    }
    hide Admit, WakeAll, SumLen, Without;
  }

  lemma TruthKept(img: Image, s: State, step: Step)
    requires Consistent(s.cache) && ThreadsOk(img, s) && Truthful(img, s) && Enabled(img, s, step)
    ensures Truthful(img, Apply(img, s, step))
  {
    hide Apply, Consistent;
    var s' := Apply(img, s, step);
    assert ThreadOk(img, s.threads[step.t]);
    forall b: Block | IsReady(s'.cache.blocks, b)
      ensures b < |img.payloads| && s'.cache.blocks[b].bytes <= img.payloads[b]
    {
      ReadyAfter(img, s, step, b);
    }
  }

  lemma OldestFirstKept(img: Image, s: State, step: Step)
    requires Consistent(s.cache) && OldestFirst(s) && Enabled(img, s, step)
    ensures OldestFirst(Apply(img, s, step))
  {
    var th := s.threads[step.t];
    match step
    case TakeLock(_) => EnterKeepsSorted(s.cache, Target(th), Needed(th), s.lastUse, s.clock);
    case Publish(_) => AdmitKeepsSorted(s.cache, Target(th), th.pc.bytes, img.budget, s.lastUse, s.clock);
    case _ =>
  }

  lemma WholeResidentKept(img: Image, s: State, step: Step)
    requires Consistent(s.cache) && WholeResident(img, s) && WholeHeld(img, s) && Enabled(img, s, step)
    ensures WholeResident(img, Apply(img, s, step))
  {
    hide Apply, Consistent;
    var s', th := Apply(img, s, step), s.threads[step.t];
    if step.Publish? {
      assert HoldsBlock(s, step.t, Target(th)) && WholeHeldBy(img, s, step.t, Target(th));
    }
    forall b: Block | IsReady(s'.cache.blocks, b) && |s'.cache.blocks[b].bytes| >= img.whole
      ensures b in s'.cache.decodedWhole
    {
      ReadyAfter(img, s, step, b);
    }
  }

  lemma WholeHeldKept(img: Image, s: State, step: Step)
    requires Ownership(s) && WholeHeld(img, s) && Enabled(img, s, step)
    ensures WholeHeld(img, Apply(img, s, step))
  {
    OthersKept(img, s, step);
    OthersHoldings(img, s, step);
    var s' := Apply(img, s, step);
    forall t: nat, b: Block | HoldsBlock(s', t, b) ensures WholeHeldBy(img, s', t, b) {
      if t != step.t {
        assert HoldsBlock(s, t, b) && WholeHeldBy(img, s, t, b);
        if step.SettleWhole? {
          assert HoldsBlock(s, step.t, Target(s.threads[step.t]));
        }
      }
    }
  }

  lemma StepKeepsInv(img: Image, s: State, step: Step)
    requires Inv(img, s) && Enabled(img, s, step)
    ensures Inv(img, Apply(img, s, step))
  {
    CacheKept(img, s, step);
    ThreadsKept(img, s, step);
    OwnershipKept(img, s, step);
    NoWakeupLost(img, s, step);
    TruthKept(img, s, step);
    OldestFirstKept(img, s, step);
    WholeResidentKept(img, s, step);
    WholeHeldKept(img, s, step);
  }
}
