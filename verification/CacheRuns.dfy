/** What holds over whole runs of the shared cache: safety, progress and recency. */
module CacheRuns {
  import opened Common
  import opened CacheModel
  import opened CacheProtocol

  // ---------------------------------------------------------------- safety

  lemma {:induction false} RunKeepsInv(img: Image, s: State, steps: seq<Step>)
    requires Inv(img, s) && ValidRun(img, s, steps)
    ensures Inv(img, Exec(img, s, steps))
    decreases |steps|
  {
    if steps != [] {
      StepKeepsInv(img, s, steps[0]);
      RunKeepsInv(img, Apply(img, s, steps[0]), steps[1..]);
    }
  }

  // Every interleaving of any number of threads, each making any calls, reaches
  // only states in which the bookkeeping, ownership, contents and order are right.
  lemma EveryReachableStateIsSafe(img: Image, programs: seq<seq<Call>>, steps: seq<Step>)
    requires ValidRun(img, Init(programs), steps)
    ensures var s := Exec(img, Init(programs), steps);
            && Inv(img, s)
            && NoDup(s.cache.order)
            && (forall b: Block :: b in s.cache.order <==> IsReady(s.cache.blocks, b))
            && s.cache.resident == SumLen(s.cache.order, s.cache.blocks)
            && (s.cache.resident <= img.budget || |s.cache.order| == 1)
            && (forall b: Block :: IsLoading(s.cache.blocks, b) <==> exists t: nat :: HoldsBlock(s, t, b))
            && (forall b: Block :: IsReady(s.cache.blocks, b) ==>
                  b < |img.payloads| && s.cache.blocks[b].bytes <= img.payloads[b])
  {
    InitInv(img, programs);
    RunKeepsInv(img, Init(programs), steps);
  }

  // A decode under way is a partial one only if the block has never been decoded in whole.
  lemma NoPartialDecodeOfAWholeBlock(img: Image, programs: seq<seq<Call>>, steps: seq<Step>, t: nat, b: Block)
    requires ValidRun(img, Init(programs), steps)
    requires var s := Exec(img, Init(programs), steps);
             HoldsBlock(s, t, b) && s.threads[t].pc.Decoding? && b in s.cache.decodedWhole
    ensures var s := Exec(img, Init(programs), steps);
            s.threads[t].pc.full && !PrefixAllowed(img, Needed(s.threads[t]), s.threads[t].pc.full)
  {
    EveryReachableStateIsSafe(img, programs, steps);
    var s := Exec(img, Init(programs), steps);
    assert WholeHeldBy(img, s, t, b);
  }

  // A clear leaves no block resident, and the blocks under decode and those known whole as they were.
  lemma ClearStepEmpties(img: Image, s: State, step: Step)
    requires Enabled(img, s, step) && step.RunClear?
    ensures var s' := Apply(img, s, step);
            && s'.cache.resident == 0 && s'.cache.order == [] && s'.cache.decodedWhole == s.cache.decodedWhole
            && (forall b :: !IsReady(s'.cache.blocks, b))
            && (forall b :: IsLoading(s'.cache.blocks, b) <==> IsLoading(s.cache.blocks, b))
            && s'.threads[step.t].results == s.threads[step.t].results + [Cleared]
  {
  }

  // ------------------------------------------------------------- recency

  // What admitting `n` bytes of `b` may do to the resident blocks.
  ghost predicate EvictsLeastRecent(s: State, s': State, b: Block, n: nat, budget: nat) {
    // every evicted block was last used before every block that stays
    && (forall gone: Block, kept: Block ::
          gone in s.cache.order && gone !in s'.cache.order && kept in s.cache.order && kept in s'.cache.order ==>
          gone in s.lastUse && kept in s.lastUse && s.lastUse[gone] < s.lastUse[kept])
    // none was evicted too many: with it and all younger blocks kept, the new one does not fit
    && (forall gone: Block :: gone in s.cache.order && gone !in s'.cache.order ==>
          SumLen(s.cache.order[Find(s.cache.order, gone)..], s.cache.blocks) + n > budget)
    // and eviction stops once the new one fits or nothing else is left
    && (s'.cache.resident <= budget || s'.cache.order == [b])
  }

  // Publishing evicts the least recently used blocks, and only while the new one does not fit.
  lemma EvictionIsLeastRecentlyUsed(img: Image, programs: seq<seq<Call>>, steps: seq<Step>, t: nat)
    requires ValidRun(img, Init(programs), steps)
    requires Enabled(img, Exec(img, Init(programs), steps), Publish(t))
    ensures var s := Exec(img, Init(programs), steps);
            EvictsLeastRecent(s, Apply(img, s, Publish(t)), Target(s.threads[t]), |s.threads[t].pc.bytes|, img.budget)
  {
    hide Inv, Apply, EvictsLeastRecent;
    EveryReachableStateIsSafe(img, programs, steps);
    PublishEvictsOldest(img, Exec(img, Init(programs), steps), t);
  }

  lemma PublishEvictsOldest(img: Image, s: State, t: nat)
    requires Inv(img, s) && Enabled(img, s, Publish(t))
    ensures EvictsLeastRecent(s, Apply(img, s, Publish(t)), Target(s.threads[t]), |s.threads[t].pc.bytes|, img.budget)
  {
    hide Inv, Admit, Consistent, SumLen, Find;
    var b, bytes := Target(s.threads[t]), s.threads[t].pc.bytes;
    MarkedIsNotQueued(img, s, t);
    var k := AdmitEvictsOldest(s.cache, b, bytes, img.budget);
    QueueEvicts(s.cache.order, k, b, s.lastUse, s.clock);
  }

  // The block about to be published is marked, so it stands in no queue.
  lemma MarkedIsNotQueued(img: Image, s: State, t: nat)
    requires Inv(img, s) && Enabled(img, s, Publish(t))
    ensures var b := Target(s.threads[t]);
            && Consistent(s.cache) && NoDup(s.cache.order) && b !in s.cache.order
            && Without(s.cache.order, b) == s.cache.order && SortedByUse(s.cache.order, s.lastUse, s.clock)
  {
    assert HoldsBlock(s, t, Target(s.threads[t]));
  }

  // What leaves a queue ordered by use from its front was used before all that stays.
  lemma QueueEvicts(order: seq<Block>, k: nat, b: Block, lastUse: map<Block, nat>, clock: nat)
    requires NoDup(order) && k <= |order| && b !in order && SortedByUse(order, lastUse, clock)
    ensures forall gone: Block :: gone in order && gone !in order[k..] + [b] ==> Find(order, gone) < k
    ensures forall gone: Block, kept: Block ::
              gone in order && gone !in order[k..] + [b] && kept in order && kept in order[k..] + [b] ==>
              gone in lastUse && kept in lastUse && lastUse[gone] < lastUse[kept]
  {
    GoneIsPrefix(order, k, b);
    forall gone: Block, kept: Block |
      gone in order && gone !in order[k..] + [b] && kept in order && kept in order[k..] + [b]
      ensures gone in lastUse && kept in lastUse && lastUse[gone] < lastUse[kept]
    {
      assert order[Find(order, gone)] == gone && order[Find(order, kept)] == kept;
    }
  }

  // After the first k blocks leave the queue, gone are exactly those standing before k.
  lemma GoneIsPrefix(order: seq<Block>, k: nat, b: Block)
    requires NoDup(order) && k <= |order| && b !in order
    ensures forall x: Block :: x in order ==> (x !in order[k..] + [b] <==> Find(order, x) < k)
  {
    forall x: Block | x in order ensures x !in order[k..] + [b] <==> Find(order, x) < k {
      CutIsDisjoint(order, k);
      var i := Find(order, x);
      if i < k {
        assert order[..k][i] == x;
      } else {
        assert order[k..][i - k] == x;
      }
    }
  }

  // ------------------------------------------------------------ progress

  // Calls a thread has not begun.
  function Todo(th: Thread): nat {
    if |th.results| > |th.program| then 0
    else if th.pc == Idle then |th.program| - |th.results|
    else if |th.results| == |th.program| then 0
    else |th.program| - |th.results| - 1
  }

  // Steps a call may still take, with `n` for the notification it may still send.
  function PcWeight(n: nat, pc: Pc): nat {
    match pc
    case Idle => 0
    case AtLock => n + 5
    case Asleep => n + 4
    case Decoding(_) => n + 4
    case Decoded(_) => n + 3
    case Publishing(_) => n + 2
    case Failing => n + 2
    case Notifying(_) => n + 1
  }

  function Weight(n: nat, th: Thread): nat {
    (n + 6) * Todo(th) + PcWeight(n, th.pc)
  }

  function Total(n: nat, threads: seq<Thread>): nat {
    if threads == [] then 0 else Weight(n, threads[0]) + Total(n, threads[1..])
  }

  function Measure(s: State): nat {
    Total(|s.threads|, s.threads)
  }

  lemma {:induction false} TotalUpdate(n: nat, threads: seq<Thread>, t: nat, th: Thread)
    requires t < |threads|
    ensures Total(n, threads[t := th]) == Total(n, threads) - Weight(n, threads[t]) + Weight(n, th)
  {
    if t == 0 {
      assert threads[t := th][1..] == threads[1..];
    } else {
      assert threads[t := th][1..] == threads[1..][t - 1 := th];
      TotalUpdate(n, threads[1..], t - 1, th);
    }
  }

  // Waking everybody costs at most one step each.
  lemma {:induction false} TotalWake(n: nat, threads: seq<Thread>)
    ensures Total(n, WakeAll(threads)) <= Total(n, threads) + |threads|
  {
    if threads != [] {
      assert WakeAll(threads)[1..] == WakeAll(threads[1..]);
      TotalWake(n, threads[1..]);
      assert Weight(n, Woken(threads[0])) <= Weight(n, threads[0]) + 1;
    }
  }

  // Starting a call trades one to-do for its weight.
  lemma BeginPays(n: nat, todo: nat)
    requires todo > 0
    ensures (n + 6) * todo == (n + 6) * (todo - 1) + (n + 6)
  {
  }

  // Without spurious wake-ups every step makes the measure smaller, whichever thread takes it.
  lemma EveryStepDescends(img: Image, s: State, step: Step)
    requires Enabled(img, s, step) && !step.WakeSpuriously?
    ensures Measure(Apply(img, s, step)) < Measure(s)
  {
    var n := |s.threads|;
    var s' := Apply(img, s, step);
    var t := step.t;
    var th := s.threads[t];
    if step.NotifyAll? {
      var woken := WakeAll(s.threads);
      TotalWake(n, s.threads);
      TotalUpdate(n, woken, t, Finished(th, th.pc.outcome));
      assert woken[t] == th;
      assert Todo(Finished(th, th.pc.outcome)) == Todo(th);
    } else {
      assert s'.threads == s.threads[t := s'.threads[t]];
      TotalUpdate(n, s.threads, t, s'.threads[t]);
      StepperDescends(img, s, step);
    }
  }

  lemma StepperDescends(img: Image, s: State, step: Step)
    requires Enabled(img, s, step) && !step.WakeSpuriously? && !step.NotifyAll?
    ensures Weight(|s.threads|, Apply(img, s, step).threads[step.t]) < Weight(|s.threads|, s.threads[step.t])
  {
    hide Admit, Clear, Abandon, MarkWhole;
    var th := s.threads[step.t];
    if step.Begin? || step.RunClear? {
      BeginPays(|s.threads|, Todo(th));
      assert Todo(Apply(img, s, step).threads[step.t]) == Todo(th) - 1;
    } else {
      assert Todo(Apply(img, s, step).threads[step.t]) == Todo(th);
    }
  }

  function CallCount(programs: seq<seq<Call>>): nat {
    if programs == [] then 0 else |programs[0]| + CallCount(programs[1..])
  }

  lemma {:induction false} InitTotal(n: nat, programs: seq<seq<Call>>)
    ensures Total(n, Init(programs).threads) == (n + 6) * CallCount(programs)
  {
    if programs != [] {
      assert Init(programs).threads[1..] == Init(programs[1..]).threads;
      InitTotal(n, programs[1..]);
    }
  }

  lemma {:induction false} RunIsBounded(img: Image, s: State, steps: seq<Step>)
    requires ValidRun(img, s, steps)
    requires forall i :: 0 <= i < |steps| ==> !steps[i].WakeSpuriously?
    ensures |steps| + Measure(Exec(img, s, steps)) <= Measure(s)
    decreases |steps|
  {
    if steps != [] {
      EveryStepDescends(img, s, steps[0]);
      RunIsBounded(img, Apply(img, s, steps[0]), steps[1..]);
    }
  }

  predicate AllDone(s: State) {
    forall t :: 0 <= t < |s.threads| ==> s.threads[t].pc == Idle && |s.threads[t].results| == |s.threads[t].program|
  }

  // The step a thread that is neither asleep nor done can take.
  function NextOf(s: State, t: nat): Step
    requires t < |s.threads|
  {
    var th := s.threads[t];
    match th.pc
    case Idle => if |th.results| < |th.program| && th.program[|th.results|].ClearAll? then RunClear(t) else Begin(t)
    case AtLock => TakeLock(t)
    case Asleep => WakeSpuriously(t)
    case Decoding(_) => DecodeFails(t)
    case Decoded(_) => SettleWhole(t)
    case Publishing(_) => Publish(t)
    case Failing => Abort(t)
    case Notifying(_) => NotifyAll(t)
  }

  // Unfinished threads are never all asleep: some step other than a spurious wake-up is possible.
  lemma NeverStuck(img: Image, s: State) returns (step: Step)
    requires Inv(img, s) && !AllDone(s)
    ensures Enabled(img, s, step) && !step.WakeSpuriously?
  {
    var t :| 0 <= t < |s.threads| && !(s.threads[t].pc == Idle && |s.threads[t].results| == |s.threads[t].program|);
    assert ThreadOk(img, s.threads[t]);
    var next: nat := t;
    if s.threads[t].pc == Asleep {
      next := WakerOf(img, s, t);
    }
    hide Inv, ThreadOk, AllDone;
    NextIsEnabled(img, s, next);
    step := NextOf(s, next);
  }

  // Whoever is to wake a sleeper: the holder of its block, or a thread about to notify.
  lemma WakerOf(img: Image, s: State, t: nat) returns (u: nat)
    requires Inv(img, s) && t < |s.threads| && s.threads[t].pc == Asleep
    ensures u < |s.threads| && ThreadOk(img, s.threads[u]) && s.threads[u].pc != Idle && s.threads[u].pc != Asleep
  {
    assert ThreadOk(img, s.threads[t]);
    var b := Target(s.threads[t]);
    assert AsleepOn(s, t, b);
    if IsLoading(s.cache.blocks, b) {
      u :| HoldsBlock(s, u, b);
    } else {
      u :| 0 <= u < |s.threads| && s.threads[u].pc.Notifying?;
    }
    assert ThreadOk(img, s.threads[u]);
  }

  lemma NextIsEnabled(img: Image, s: State, t: nat)
    requires t < |s.threads| && ThreadOk(img, s.threads[t]) && s.threads[t].pc != Asleep
    requires s.threads[t].pc == Idle ==> |s.threads[t].results| != |s.threads[t].program|
    ensures Enabled(img, s, NextOf(s, t)) && !NextOf(s, t).WakeSpuriously?
  {
  }

  // Every call of every program answered: with bytes that serve the read, or with a
  // failure of the caller's own decode. No call has run decode more than once.
  ghost predicate Answered(img: Image, programs: seq<seq<Call>>, s: State) {
    && |s.threads| == |programs|
    && (forall t :: 0 <= t < |programs| ==> ThreadAnswered(img, programs[t], s.threads[t]))
  }

  ghost predicate ThreadAnswered(img: Image, program: seq<Call>, th: Thread) {
    && |th.results| == |program|
    && (forall i :: 0 <= i < |program| ==> OutcomeOk(img, program[i], th.results[i]))
    && Increasing(th.decodes)
    && (forall i :: 0 <= i < |th.decodes| ==> th.decodes[i] < |program|)
  }

  lemma StoppedMeansAnswered(img: Image, programs: seq<seq<Call>>, s: State)
    requires Inv(img, s) && |s.threads| == |programs|
    requires forall t :: 0 <= t < |programs| ==> s.threads[t].program == programs[t]
    requires forall step: Step :: Enabled(img, s, step) ==> step.WakeSpuriously?
    ensures Answered(img, programs, s)
  {
    if !AllDone(s) {
      var step := NeverStuck(img, s);
    }
    forall t | 0 <= t < |programs| ensures ThreadAnswered(img, programs[t], s.threads[t]) {
      assert ThreadOk(img, s.threads[t]);
    }
  }

  // However the threads are scheduled, a run without spurious wake-ups takes at most
  // (threads + 6) steps per call.
  lemma EveryScheduleIsBounded(img: Image, programs: seq<seq<Call>>, steps: seq<Step>)
    requires ValidRun(img, Init(programs), steps)
    requires forall i :: 0 <= i < |steps| ==> !steps[i].WakeSpuriously?
    ensures |steps| <= (|programs| + 6) * CallCount(programs)
  {
    RunIsBounded(img, Init(programs), steps);
    InitTotal(|programs|, programs);
  }

  // A run that only a spurious wake-up could continue has answered every call.
  lemma EveryStoppedRunHasAnswered(img: Image, programs: seq<seq<Call>>, steps: seq<Step>)
    requires ValidRun(img, Init(programs), steps)
    requires forall step: Step :: Enabled(img, Exec(img, Init(programs), steps), step) ==> step.WakeSpuriously?
    ensures Answered(img, programs, Exec(img, Init(programs), steps))
  {
    EveryReachableStateIsSafe(img, programs, steps);
    ProgramsFixed(img, Init(programs), steps);
    StoppedMeansAnswered(img, programs, Exec(img, Init(programs), steps));
  }

  lemma {:induction false} ProgramsFixed(img: Image, s: State, steps: seq<Step>)
    requires ValidRun(img, s, steps)
    ensures |Exec(img, s, steps).threads| == |s.threads|
    ensures forall t :: 0 <= t < |s.threads| ==> Exec(img, s, steps).threads[t].program == s.threads[t].program
    decreases |steps|
  {
    if steps != [] {
      OthersKept(img, s, steps[0]);
      ProgramsFixed(img, Apply(img, s, steps[0]), steps[1..]);
    }
  }

  // ------------------------------------------------------------- answers

  // Whatever a finished fetch handed its caller is a prefix of the block, as long as was asked for.
  lemma EveryAnswerIsTrue(img: Image, programs: seq<seq<Call>>, steps: seq<Step>, t: nat, k: nat)
    requires ValidRun(img, Init(programs), steps)
    requires var s := Exec(img, Init(programs), steps); t < |s.threads| && k < |s.threads[t].results|
    ensures var th := Exec(img, Init(programs), steps).threads[t];
            && k < |th.program|
            && (th.results[k].Got? ==>
                  th.program[k].Fetch? && FetchOk(img, th.program[k].block, th.program[k].needed, th.results[k].bytes))
  {
    InitInv(img, programs);
    RunKeepsInv(img, Init(programs), steps);
    var th := Exec(img, Init(programs), steps).threads[t];
    assert ThreadOk(img, th);
    assert OutcomeOk(img, th.program[k], th.results[k]);
  }

  // A budget of nothing does not turn caching off: the block just admitted stays, and it alone.
  lemma NoBudgetKeepsTheLastBlock(img: Image, programs: seq<seq<Call>>, steps: seq<Step>, t: nat)
    requires img.budget == 0 && ValidRun(img, Init(programs), steps)
    requires Enabled(img, Exec(img, Init(programs), steps), Publish(t))
    requires Exec(img, Init(programs), steps).threads[t].pc.bytes != []
    ensures var s := Exec(img, Init(programs), steps);
            var s' := Apply(img, s, Publish(t));
            && s'.cache.order == [Target(s.threads[t])]
            && s'.cache.resident == |s.threads[t].pc.bytes| > img.budget
  {
    InitInv(img, programs);
    RunKeepsInv(img, Init(programs), steps);
    var s := Exec(img, Init(programs), steps);
    var b, bytes := Target(s.threads[t]), s.threads[t].pc.bytes;
    var k := AdmitEvictsOldest(s.cache, b, bytes, 0);
    var others := Without(s.cache.order, b);
    var admitted := Admit(s.cache, b, bytes, 0);
    assert Keep(others, s.cache.blocks - {b}, |bytes|, 0) == admitted.order[..|admitted.order| - 1];
    assert admitted.resident >= |bytes|;
  }
}
