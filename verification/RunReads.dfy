/** Reads on a run of the shared cache: the answers a thread was given are answers a read may rely on. */
module RunReads {
  import opened Common
  import opened CacheProtocol
  import opened CacheRuns
  import opened FileRead

  // The thread's n-th call, when it asked for exactly these bytes and was given some.
  function AnswersOf(th: Thread): Answers {
    (n: nat, b: nat, needed: nat) =>
      if n < |th.results| && n < |th.program| && th.program[n] == Fetch(b, needed) && th.results[n].Got?
      then Some(th.results[n].bytes)
      else None
  }

  // In any run of any number of threads, under any interleaving, whatever a thread was given is fit to read from, and
  // all of it can be.
  lemma RunAnswersAreTrue(img: Image, programs: seq<seq<Call>>, steps: seq<Step>, t: nat)
    requires ValidRun(img, Init(programs), steps) && t < |Exec(img, Init(programs), steps).threads|
    ensures AnswersOk(img, AnswersOf(Exec(img, Init(programs), steps).threads[t]))
    ensures var th := Exec(img, Init(programs), steps).threads[t];
            forall n: nat, b: nat, needed: nat, bytes: Bytes ::
              n < |th.results| && n < |th.program|
              && th.program[n] == Fetch(b, needed) && th.results[n] == Got(bytes) ==>
                AnswersOf(th)(n, b, needed) == Some(bytes)
  {
    var th := Exec(img, Init(programs), steps).threads[t];
    forall n: nat, b: nat, needed: nat | AnswersOf(th)(n, b, needed).Some?
      ensures FetchOk(img, b, needed, AnswersOf(th)(n, b, needed).value)
    {
      EveryAnswerIsTrue(img, programs, steps, t, n);
    }
  }

  // A read that a thread of a run has made from call `clock` on, in the middle of whatever the other threads do.
  method ReadOnRun(fs: Fs, ghost img: Image, ghost programs: seq<seq<Call>>, ghost steps: seq<Step>, ghost t: nat,
                   th: Thread, inode: nat, offset: u64, buf: array<byte>, clock: nat)
    returns (r: Option<nat>, clock': nat)
    requires Opened(fs) && ValidRun(img, Init(programs), steps)
    requires var s := Exec(img, Init(programs), steps); t < |s.threads| && s.threads[t] == th
    modifies buf
    ensures r.Some? ==> Readable(fs, inode) && r.value == Available(fs, img.payloads, inode, offset, buf.Length)
    ensures r.Some? ==> Copied(FileBytes(fs, img.payloads, inode), offset, buf[..], old(buf[..]), r.value)
  {
    RunAnswersAreTrue(img, programs, steps, t);
    r, clock' := ReadInto(fs, img, inode, offset, buf, AnswersOf(th), clock);
  }
}
