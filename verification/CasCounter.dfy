/** The shared counter of the compare-and-swap probe: T threads each perform n
    increments by an atomic 64-bit compare-and-swap, retrying on failure. A run
    is a schedule, the sequence of threads that take the next step. */
module CasCounter {
  import Bits

  const WORD: nat := 0x1_0000_0000_0000_0000

  /** One thread: whether it has read its seed, its completed increments, the
      value it expects, its failed attempts; `seen` records how many increments
      had been made by all threads when it last observed the counter. */
  datatype Thread = Thread(seeded: bool, done: nat, expected: nat, retries: nat, seen: nat)

  datatype State = State(counter: nat, threads: seq<Thread>)

  function Init(count: nat): State { State(0, seq(count, _ => Thread(false, 0, 0, 0, 0))) }

  /** The thread has a step to take. */
  predicate Enabled(s: State, n: nat, t: nat) {
    t < |s.threads| && (!s.threads[t].seeded || s.threads[t].done < n)
  }

  /** Increments completed by all threads. */
  function Total(threads: seq<Thread>): nat {
    if threads == [] then 0 else threads[0].done + Total(threads[1..])
  }

  /** Compare-and-swap: the new value, and whether it was stored. */
  function Cas(counter: nat, wanted: nat, desired: nat): (nat, bool) {
    if counter == wanted then (desired, true) else (counter, false)
  }

  /** A step of thread t: the seeding attempt, which can never change the
      counter, or one attempt to increment. */
  function Next(s: State, n: nat, t: nat): State
    requires Enabled(s, n, t)
  {
    var th := s.threads[t];
    if !th.seeded then
      var (value, _) := Cas(s.counter, WORD - 1, WORD - 1);
      State(value, s.threads[t := th.(seeded := true, expected := s.counter, seen := Total(s.threads))])
    else
      var (value, ok) := Cas(s.counter, th.expected, (th.expected + 1) % WORD);
      if ok then
        State(value, s.threads[t := th.(done := th.done + 1, expected := (th.expected + 1) % WORD,
                                        seen := Total(s.threads) + 1)])
      else
        State(value, s.threads[t := th.(expected := s.counter, retries := th.retries + 1, seen := Total(s.threads))])
  }

  /** The schedule only names threads that have a step to take. */
  ghost predicate IsRun(count: nat, n: nat, schedule: seq<nat>)
    decreases |schedule|
  {
    schedule == [] ||
    (&& IsRun(count, n, schedule[..|schedule| - 1])
     && Enabled(After(count, n, schedule[..|schedule| - 1]), n, schedule[|schedule| - 1]))
  }

  /** The state a schedule leads to. */
  function After(count: nat, n: nat, schedule: seq<nat>): State
    decreases |schedule|
  {
    if schedule == [] then Init(count)
    else
      var s := After(count, n, schedule[..|schedule| - 1]);
      var t := schedule[|schedule| - 1];
      if Enabled(s, n, t) then Next(s, n, t) else s
  }

  ghost predicate Finished(s: State, n: nat) {
    forall t :: 0 <= t < |s.threads| ==> s.threads[t].seeded && s.threads[t].done == n
  }

  // ----- sums

  lemma {:induction false} TotalUpdate(threads: seq<Thread>, t: nat, th: Thread)
    requires t < |threads|
    ensures Total(threads[t := th]) == Total(threads) - threads[t].done + th.done
    ensures threads[t].done <= Total(threads)
  {
    if t == 0 {
      assert threads[t := th][1..] == threads[1..];
    } else {
      assert threads[t := th][1..] == threads[1..][t - 1 := th];
      TotalUpdate(threads[1..], t - 1, th);
    }
  }

  /** The steps a thread has taken. */
  function Steps(th: Thread): nat { (if th.seeded then 1 else 0) + th.done + th.retries }

  function AllSteps(threads: seq<Thread>): nat {
    if threads == [] then 0 else Steps(threads[0]) + AllSteps(threads[1..])
  }

  lemma {:induction false} AllStepsUpdate(threads: seq<Thread>, t: nat, th: Thread)
    requires t < |threads|
    ensures AllSteps(threads[t := th]) == AllSteps(threads) - Steps(threads[t]) + Steps(th)
  {
    if t == 0 {
      assert threads[t := th][1..] == threads[1..];
    } else {
      assert threads[t := th][1..] == threads[1..][t - 1 := th];
      AllStepsUpdate(threads[1..], t - 1, th);
    }
  }

  lemma {:induction false} AllStepsBound(threads: seq<Thread>, each: nat)
    requires forall t :: 0 <= t < |threads| ==> Steps(threads[t]) <= each
    ensures AllSteps(threads) <= |threads| * each
  {
    if threads != [] {
      AllStepsBound(threads[1..], each);
      assert |threads| * each == each + |threads[1..]| * each;
    }
  }

  lemma {:induction false} TotalBound(threads: seq<Thread>, n: nat)
    requires forall t :: 0 <= t < |threads| ==> threads[t].done <= n
    ensures Total(threads) <= |threads| * n
    ensures (forall t :: 0 <= t < |threads| ==> threads[t].done == n) ==> Total(threads) == |threads| * n
  {
    if threads != [] {
      TotalBound(threads[1..], n);
      assert |threads| * n == n + |threads[1..]| * n;
    }
  }

  // ----- the invariant

  /** A thread expects what the counter held when it last looked, and every
      failure it counted was caused by some other thread's increment before
      that. */
  ghost predicate ThreadOk(th: Thread, n: nat, total: nat) {
    && th.done <= n && th.done <= th.seen <= total
    && th.expected == th.seen % WORD
    && th.retries <= th.seen - th.done
    && (!th.seeded ==> th.done == 0 && th.retries == 0)
  }

  ghost predicate Inv(s: State, n: nat) {
    && s.counter == Total(s.threads) % WORD
    && forall t :: 0 <= t < |s.threads| ==> ThreadOk(s.threads[t], n, Total(s.threads))
  }

  lemma {:induction false} InitTotal(count: nat)
    ensures Total(Init(count).threads) == 0
  {
    if count > 0 {
      assert Init(count).threads[1..] == Init(count - 1).threads;
      InitTotal(count - 1);
    }
  }

  lemma {:induction false} InitSteps(count: nat)
    ensures AllSteps(Init(count).threads) == 0
  {
    if count > 0 {
      assert Init(count).threads[1..] == Init(count - 1).threads;
      InitSteps(count - 1);
    }
  }

  lemma NextKeepsInv(s: State, n: nat, t: nat)
    requires Inv(s, n) && Enabled(s, n, t)
    ensures Inv(Next(s, n, t), n) && |Next(s, n, t).threads| == |s.threads|
    ensures AllSteps(Next(s, n, t).threads) == AllSteps(s.threads) + 1
  {
    hide Total, AllSteps;
    var th, th' := s.threads[t], Next(s, n, t).threads[t];
    assert ThreadOk(th, n, Total(s.threads));
    TotalUpdate(s.threads, t, th');
    AllStepsUpdate(s.threads, t, th');
    Bits.WrapIncrement(Total(s.threads), WORD);
  }

  lemma {:induction false} RunKeepsInv(count: nat, n: nat, schedule: seq<nat>)
    requires IsRun(count, n, schedule)
    ensures Inv(After(count, n, schedule), n) && |After(count, n, schedule).threads| == count
    ensures AllSteps(After(count, n, schedule).threads) == |schedule|
    decreases |schedule|
  {
    if schedule == [] {
      InitTotal(count);
      InitSteps(count);
    } else {
      RunKeepsInv(count, n, schedule[..|schedule| - 1]);
      NextKeepsInv(After(count, n, schedule[..|schedule| - 1]), n, schedule[|schedule| - 1]);
    }
  }

  // ----- the results

  /** Every run in which all threads finish leaves exactly count * n in the
      counter, in 64-bit arithmetic. */
  lemma FinalCountExact(count: nat, n: nat, schedule: seq<nat>)
    requires IsRun(count, n, schedule) && Finished(After(count, n, schedule), n)
    ensures After(count, n, schedule).counter == count * n % WORD
  {
    RunKeepsInv(count, n, schedule);
    TotalBound(After(count, n, schedule).threads, n);
  }

  /** In every run, a thread's failed attempts are at most the increments the
      other threads have completed. */
  lemma RetriesBoundedByOthers(count: nat, n: nat, schedule: seq<nat>, t: nat)
    requires IsRun(count, n, schedule) && t < count
    ensures var threads := After(count, n, schedule).threads;
            |threads| == count && threads[t].retries <= Total(threads) - threads[t].done
  {
    RunKeepsInv(count, n, schedule);
    assert ThreadOk(After(count, n, schedule).threads[t], n, Total(After(count, n, schedule).threads));
  }

  /** No run takes more than count + count * count * n steps, so every run
      terminates. */
  lemma RunsAreBounded(count: nat, n: nat, schedule: seq<nat>)
    requires IsRun(count, n, schedule)
    ensures |schedule| <= count * (1 + count * n)
  {
    RunKeepsInv(count, n, schedule);
    var threads := After(count, n, schedule).threads;
    TotalBound(threads, n);
    var total := Total(threads);
    forall t | 0 <= t < |threads| ensures Steps(threads[t]) <= 1 + count * n {
      assert ThreadOk(threads[t], n, total);
    }
    AllStepsBound(threads, 1 + count * n);
  }

  /** A run that cannot be continued has finished. */
  lemma StuckIsFinished(count: nat, n: nat, schedule: seq<nat>)
    requires IsRun(count, n, schedule)
    requires forall t: nat :: !Enabled(After(count, n, schedule), n, t)
    ensures Finished(After(count, n, schedule), n)
    ensures After(count, n, schedule).counter == count * n % WORD
  {
    RunKeepsInv(count, n, schedule);
    var s := After(count, n, schedule);
    forall t | 0 <= t < |s.threads| ensures s.threads[t].seeded && s.threads[t].done == n {
      assert ThreadOk(s.threads[t], n, Total(s.threads));
      assert !Enabled(s, n, t);
    }
    FinalCountExact(count, n, schedule);
  }
}
