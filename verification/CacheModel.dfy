/**
 The block cache's shared state as a value, and what each critical section
 does to it. `CacheProtocol` interleaves these critical sections; `CacheObject`
 holds the mutable class whose methods are proved against them.
 */
module CacheModel {
  import opened Common

  type Block = nat

  datatype Entry = Loading | Ready(bytes: Bytes)

  datatype Inner = Inner(
    decodedWhole: set<Block>,
    resident: nat,
    blocks: map<Block, Entry>,
    order: seq<Block>)

  const EMPTY := Inner({}, 0, map[], [])

  // What one pass through the fetch loop decides.
  datatype Entered = Hit(bytes: Bytes) | Wait | Claim(full: bool)

  predicate NoDup(order: seq<Block>) {
    forall i, j :: 0 <= i < j < |order| ==> order[i] != order[j]
  }

  predicate IsReady(blocks: map<Block, Entry>, b: Block) {
    b in blocks && blocks[b].Ready?
  }

  predicate IsLoading(blocks: map<Block, Entry>, b: Block) {
    b in blocks && blocks[b].Loading?
  }

  // Bytes a block contributes to the budget: a block being decoded counts nothing.
  function Len(blocks: map<Block, Entry>, b: Block): nat {
    if IsReady(blocks, b) then |blocks[b].bytes| else 0
  }

  function SumLen(order: seq<Block>, blocks: map<Block, Entry>): nat {
    if order == [] then 0 else Len(blocks, order[0]) + SumLen(order[1..], blocks)
  }

  // The bookkeeping invariant: the queue lists each resident block once, and
  // the byte count is what the resident blocks hold.
  ghost predicate Consistent(s: Inner) {
    && NoDup(s.order)
    && (forall b :: b in s.order <==> IsReady(s.blocks, b))
    && s.resident == SumLen(s.order, s.blocks)
  }

  ghost predicate WithinBudget(s: Inner, budget: nat) {
    s.resident <= budget || |s.order| == 1
  }

  // ---------------------------------------------------------------- queue

  function Find(order: seq<Block>, b: Block): (k: nat)
    requires b in order
    ensures k < |order| && order[k] == b
    ensures forall i :: 0 <= i < k ==> order[i] != b
  {
    if order[0] == b then 0 else 1 + Find(order[1..], b)
  }

  // The queue with the first occurrence of `b` removed.
  function Without(order: seq<Block>, b: Block): seq<Block> {
    if b in order then order[..Find(order, b)] + order[Find(order, b) + 1..] else order
  }

  // The longest suffix of the queue that leaves room for `n` more bytes.
  function Keep(order: seq<Block>, blocks: map<Block, Entry>, n: nat, budget: nat): seq<Block> {
    if order == [] || SumLen(order, blocks) + n <= budget then order
    else Keep(order[1..], blocks, n, budget)
  }

  // ---------------------------------------------------- critical sections

  function Touch(s: Inner, b: Block): Inner {
    if b in s.order then s.(order := Without(s.order, b) + [b]) else s
  }

  function Evict(s: Inner, b: Block): Inner {
    var order := Without(s.order, b);
    var blocks := s.blocks - {b};
    s.(blocks := blocks, order := order, resident := SumLen(order, blocks))
  }

  function Claimed(s: Inner, b: Block): Inner {
    s.(blocks := s.blocks[b := Loading])
  }

  function Enter(s: Inner, b: Block, needed: nat): (Inner, Entered) {
    if b !in s.blocks then (Claimed(s, b), Claim(b in s.decodedWhole))
    else match s.blocks[b]
      case Loading => (s, Wait)
      case Ready(bytes) =>
        if |bytes| >= needed then (Touch(s, b), Hit(bytes))
        else (Claimed(Evict(s, b), b), Claim(true))
  }

  function MarkWhole(s: Inner, b: Block): Inner {
    s.(decodedWhole := s.decodedWhole + {b})
  }

  // Oldest blocks go until the new one fits or nothing is left; then it lands.
  function Admit(s: Inner, b: Block, bytes: Bytes, budget: nat): Inner {
    var others := Without(s.order, b);
    var blocks := s.blocks - {b};
    var kept := Keep(others, blocks, |bytes|, budget);
    var dropped := set x | x in others && x !in kept;
    s.(blocks := (blocks - dropped)[b := Ready(bytes)],
       order := kept + [b],
       resident := SumLen(kept, blocks) + |bytes|)
  }

  function Abandon(s: Inner, b: Block): Inner {
    s.(blocks := s.blocks - {b})
  }

  function Clear(s: Inner): Inner {
    s.(blocks := map x | x in s.blocks && s.blocks[x].Loading? :: Loading, order := [], resident := 0)
  }

  // ------------------------------------------------------- queue lemmas

  lemma {:induction false} SumLenConcat(a: seq<Block>, b: seq<Block>, blocks: map<Block, Entry>)
    ensures SumLen(a + b, blocks) == SumLen(a, blocks) + SumLen(b, blocks)
  {
    if a == [] {
      assert a + b == b;
    } else {
      assert (a + b)[0] == a[0] && (a + b)[1..] == a[1..] + b;
      SumLenConcat(a[1..], b, blocks);
    }
  }

  lemma {:induction false} SumLenFrame(order: seq<Block>, blocks: map<Block, Entry>, blocks': map<Block, Entry>)
    requires forall b :: b in order ==> Len(blocks, b) == Len(blocks', b)
    ensures SumLen(order, blocks) == SumLen(order, blocks')
  {
    if order != [] {
      assert order[0] in order && forall b :: b in order[1..] ==> b in order;
      SumLenFrame(order[1..], blocks, blocks');
    }
  }

  lemma WithoutAt(order: seq<Block>, b: Block, i: nat)
    requires b in order && i < |order| - 1
    ensures Without(order, b)[i] == if i < Find(order, b) then order[i] else order[i + 1]
  {
  }

  lemma WithoutMembers(order: seq<Block>, b: Block, x: Block)
    requires NoDup(order)
    ensures x in Without(order, b) <==> x in order && x != b
  {
    if b in order {
      var k := Find(order, b);
      assert order == order[..k] + [b] + order[k + 1..];
      assert forall i :: 0 <= i < k ==> order[i] != b;
      assert forall i :: k + 1 <= i < |order| ==> order[k] != order[i];
    }
  }

  lemma WithoutFacts(order: seq<Block>, b: Block)
    requires NoDup(order)
    ensures NoDup(Without(order, b)) && b !in Without(order, b)
    ensures forall x: Block :: x in Without(order, b) <==> x in order && x != b
  {
    forall x: Block ensures x in Without(order, b) <==> x in order && x != b {
      WithoutMembers(order, b, x);
    }
    var w := Without(order, b);
    if b in order {
      forall i, j | 0 <= i < j < |w| ensures w[i] != w[j] {
        WithoutAt(order, b, i);
        WithoutAt(order, b, j);
      }
    }
  }

  lemma SumLenWithout(order: seq<Block>, b: Block, blocks: map<Block, Entry>)
    requires NoDup(order) && b in order
    ensures SumLen(order, blocks) == Len(blocks, b) + SumLen(Without(order, b), blocks)
  {
    var k := Find(order, b);
    assert order == order[..k] + ([b] + order[k + 1..]);
    SumLenConcat(order[..k], [b] + order[k + 1..], blocks);
    SumLenConcat(order[..k], order[k + 1..], blocks);
    assert ([b] + order[k + 1..])[1..] == order[k + 1..];
  }

  lemma SumLenSnoc(order: seq<Block>, b: Block, blocks: map<Block, Entry>)
    ensures SumLen(order + [b], blocks) == SumLen(order, blocks) + Len(blocks, b)
  {
    SumLenConcat(order, [b], blocks);
    assert [b][1..] == [];
    assert SumLen([b], blocks) == Len(blocks, b) + SumLen([], blocks);
  }

  // Cutting a duplicate-free queue splits its members.
  lemma CutIsDisjoint(order: seq<Block>, k: nat)
    requires NoDup(order) && k <= |order|
    ensures forall x :: x in order <==> x in order[..k] || x in order[k..]
    ensures forall x :: x in order[..k] ==> x !in order[k..]
  {
    assert order == order[..k] + order[k..];
  }

  // Keep drops a prefix: the shortest one after which the rest fits, or everything.
  lemma {:induction false} KeepDropsLeast(order: seq<Block>, blocks: map<Block, Entry>, n: nat, budget: nat)
    returns (k: nat)
    ensures k <= |order| && Keep(order, blocks, n, budget) == order[k..]
    ensures k == |order| || SumLen(order[k..], blocks) + n <= budget
    ensures forall i :: 0 <= i < k ==> SumLen(order[i..], blocks) + n > budget
  {
    if order == [] || SumLen(order, blocks) + n <= budget {
      k := 0;
      assert order[0..] == order;
    } else {
      var k' := KeepDropsLeast(order[1..], blocks, n, budget);
      k := k' + 1;
      assert order[1..][k'..] == order[k..];
      forall i | 0 <= i < k ensures SumLen(order[i..], blocks) + n > budget {
        if i == 0 {
          assert order[0..] == order;
        } else {
          assert order[1..][i - 1..] == order[i..];
        }
      }
    }
  }

  // -------------------------------------------- each section keeps order

  lemma TouchKeeps(s: Inner, b: Block)
    requires Consistent(s)
    ensures Consistent(Touch(s, b))
    ensures forall x :: x in Touch(s, b).order <==> x in s.order
  {
    if b in s.order {
      WithoutFacts(s.order, b);
      SumLenWithout(s.order, b, s.blocks);
      SumLenSnoc(Without(s.order, b), b, s.blocks);
    }
  }

  lemma EvictKeeps(s: Inner, b: Block)
    requires Consistent(s)
    ensures Consistent(Evict(s, b))
    ensures Evict(s, b).resident == s.resident - Len(s.blocks, b)
  {
    WithoutFacts(s.order, b);
    SumLenFrame(Without(s.order, b), s.blocks, s.blocks - {b});
    if b in s.order {
      SumLenWithout(s.order, b, s.blocks);
    }
  }

  lemma ClaimedKeeps(s: Inner, b: Block)
    requires Consistent(s) && b !in s.blocks
    ensures Consistent(Claimed(s, b))
  {
    SumLenFrame(s.order, s.blocks, Claimed(s, b).blocks);
  }

  lemma EnterKeeps(s: Inner, b: Block, needed: nat, budget: nat)
    requires Consistent(s) && WithinBudget(s, budget)
    ensures Consistent(Enter(s, b, needed).0) && WithinBudget(Enter(s, b, needed).0, budget)
  {
    if b !in s.blocks {
      ClaimedKeeps(s, b);
    } else if s.blocks[b].Ready? {
      TouchKeeps(s, b);
      WithoutFacts(s.order, b);
      EvictKeeps(s, b);
      if |s.blocks[b].bytes| < needed {
        ClaimedKeeps(Evict(s, b), b);
        EmptyIsWithinBudget(Evict(s, b), budget);
      }
    }
  }

  lemma EmptyIsWithinBudget(s: Inner, budget: nat)
    requires Consistent(s) && (s.order == [] || s.resident <= budget)
    ensures WithinBudget(s, budget)
  {
  }

  // What Admit leaves behind, for a split of the other resident blocks at k.
  ghost predicate AdmitSplit(s: Inner, b: Block, bytes: Bytes, budget: nat, k: nat) {
    var others := Without(s.order, b);
    var t := Admit(s, b, bytes, budget);
    && k <= |others|
    && t.order == others[k..] + [b]
    && (forall x: Block :: x in t.blocks <==> x == b || (x in s.blocks && x !in others[..k]))
    && (forall x: Block :: x in t.blocks ==> t.blocks[x] == if x == b then Ready(bytes) else s.blocks[x])
  }

  // The admitted block is resident with its bytes, whatever was evicted is the
  // least recently used prefix of the queue, and no more was evicted than had to be.
  lemma AdmitEvictsOldest(s: Inner, b: Block, bytes: Bytes, budget: nat) returns (k: nat)
    requires Consistent(s)
    ensures AdmitSplit(s, b, bytes, budget, k)
    ensures k == |Without(s.order, b)| || Admit(s, b, bytes, budget).resident <= budget
    ensures forall i :: 0 <= i < k ==> SumLen(Without(s.order, b)[i..], s.blocks) + |bytes| > budget
  {
    var others := Without(s.order, b);
    var blocks := s.blocks - {b};
    WithoutFacts(s.order, b);
    k := KeepDropsLeast(others, blocks, |bytes|, budget);
    CutIsDisjoint(others, k);
    forall i | 0 <= i < k ensures SumLen(others[i..], s.blocks) + |bytes| > budget {
      assert b !in others[i..];
      SumLenFrame(others[i..], s.blocks, blocks);
    }
  }

  lemma AdmitKeeps(s: Inner, b: Block, bytes: Bytes, budget: nat)
    requires Consistent(s)
    ensures Consistent(Admit(s, b, bytes, budget))
    ensures WithinBudget(Admit(s, b, bytes, budget), budget)
  {
    var others := Without(s.order, b);
    var t := Admit(s, b, bytes, budget);
    WithoutFacts(s.order, b);
    var k := AdmitEvictsOldest(s, b, bytes, budget);
    var kept := others[k..];
    CutIsDisjoint(others, k);
    assert Keep(others, s.blocks - {b}, |bytes|, budget) == t.order[..|t.order| - 1] == kept;
    assert NoDup(t.order);
    assert forall x :: x in t.order <==> x == b || x in kept;
    SumLenFrame(kept, s.blocks - {b}, t.blocks);
    SumLenSnoc(kept, b, t.blocks);
  }

  lemma AbandonKeeps(s: Inner, b: Block)
    requires Consistent(s) && IsLoading(s.blocks, b)
    ensures Consistent(Abandon(s, b))
  {
    SumLenFrame(s.order, s.blocks, s.blocks - {b});
  }

  lemma ClearKeeps(s: Inner)
    requires Consistent(s)
    ensures Consistent(Clear(s)) && Clear(s).resident == 0
  {
  }

  // ------------------------------------------------------- recency order

  // The queue runs from least to most recently used, and `clock` is later than any use.
  ghost predicate SortedByUse(order: seq<Block>, lastUse: map<Block, nat>, clock: nat) {
    && (forall i :: 0 <= i < |order| ==> order[i] in lastUse && lastUse[order[i]] < clock)
    && (forall i, j :: 0 <= i < j < |order| ==> lastUse[order[i]] < lastUse[order[j]])
  }

  lemma WithoutKeepsSorted(order: seq<Block>, b: Block, lastUse: map<Block, nat>, clock: nat)
    requires SortedByUse(order, lastUse, clock)
    ensures SortedByUse(Without(order, b), lastUse, clock)
  {
  }

  // Moving the just-used block to the back keeps the queue in order.
  lemma AppendUsed(order: seq<Block>, b: Block, lastUse: map<Block, nat>, clock: nat)
    requires SortedByUse(order, lastUse, clock) && b !in order
    ensures SortedByUse(order + [b], lastUse[b := clock], clock + 1)
  {
    assert forall i :: 0 <= i < |order| ==> order[i] != b;
  }

  lemma EnterKeepsSorted(s: Inner, b: Block, needed: nat, lastUse: map<Block, nat>, clock: nat)
    requires Consistent(s) && SortedByUse(s.order, lastUse, clock)
    ensures var (t, entered) := Enter(s, b, needed);
            if entered.Hit? then SortedByUse(t.order, lastUse[b := clock], clock + 1)
            else SortedByUse(t.order, lastUse, clock)
  {
    WithoutFacts(s.order, b);
    WithoutKeepsSorted(s.order, b, lastUse, clock);
    AppendUsed(Without(s.order, b), b, lastUse, clock);
  }

  lemma AdmitKeepsSorted(s: Inner, b: Block, bytes: Bytes, budget: nat, lastUse: map<Block, nat>, clock: nat)
    requires Consistent(s) && SortedByUse(s.order, lastUse, clock)
    ensures SortedByUse(Admit(s, b, bytes, budget).order, lastUse[b := clock], clock + 1)
  {
    WithoutFacts(s.order, b);
    WithoutKeepsSorted(s.order, b, lastUse, clock);
    var k := AdmitEvictsOldest(s, b, bytes, budget);
    AppendUsed(Without(s.order, b)[k..], b, lastUse, clock);
  }
}
