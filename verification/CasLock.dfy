/** The control arm of the lock probe: with the compare-and-swap acquire the lock
    excludes, with either release. */
module CasLock {
  import Bits
  import opened LockWord
  import opened LockProtocol

  /** A thread's own view agrees with the shared state. */
  ghost predicate ThreadOk(s: State, th: Thread) {
    && th.overlaps == 0
    && (Active(th) ==> s.word == HELD && s.occupancy == if Occupies(th) then 1 else 0)
    && (th.pc.Writing? ==> th.pc.value == s.shared)
    && (th.pc.Storing? ==> th.pc.loaded == HELD)
  }

  ghost predicate Inv(s: State) {
    && Exclusive(s.threads)
    && (forall i :: 0 <= i < |s.threads| ==> ThreadOk(s, s.threads[i]))
    && (!SomeoneActive(s.threads) ==> s.word == FREE && s.occupancy == 0)
    && s.shared == AllIncrements(s.threads) % WORD
  }

  lemma {:induction false} IncrementsUpdate(threads: seq<Thread>, t: nat, th: Thread)
    requires t < |threads|
    ensures AllIncrements(threads[t := th]) == AllIncrements(threads) - Increments(threads[t]) + Increments(th)
  {
    if t == 0 {
      assert threads[t := th][1..] == threads[1..];
    } else {
      assert threads[t := th][1..] == threads[1..][t - 1 := th];
      IncrementsUpdate(threads[1..], t - 1, th);
    }
  }

  lemma {:induction false} InitIncrements(count: nat)
    ensures AllIncrements(Init(count).threads) == 0
  {
    if count > 0 {
      assert Init(count).threads[1..] == Init(count - 1).threads;
      InitIncrements(count - 1);
    }
  }

  /** A step of one thread changes nobody else's activity, and it becomes active
      only when nobody is. */
  lemma ActivityMoves(s: State, t: nat, th: Thread)
    requires Inv(s) && t < |s.threads|
    requires Active(th) ==> Active(s.threads[t]) || s.word == FREE
    ensures Exclusive(s.threads[t := th])
    ensures !SomeoneActive(s.threads[t := th]) <==>
            !Active(th) && (Active(s.threads[t]) || !SomeoneActive(s.threads))
  {
    hide AllIncrements;
    var threads := s.threads[t := th];
    if Active(th) {
      assert Active(threads[t]);
    }
    if SomeoneActive(s.threads) && !Active(s.threads[t]) {
      var i :| 0 <= i < |s.threads| && Active(s.threads[i]);
      assert ThreadOk(s, s.threads[i]) && threads[i] == s.threads[i];
    }
    if SomeoneActive(threads) && !Active(th) {
      var i :| 0 <= i < |threads| && Active(threads[i]);
      assert s.threads[i] == threads[i];
    }
  }

  lemma NextShape(s: State, atomic: bool, m: Move)
    requires Inv(s) && m.t < |s.threads|
    ensures var s' := Next(s, CompareSwap, atomic, m);
            |s'.threads| == |s.threads| && s'.threads == s.threads[m.t := s'.threads[m.t]]
  {
    hide AllIncrements, SetFree;
  }

  lemma NextCounts(s: State, atomic: bool, m: Move)
    requires Inv(s) && m.t < |s.threads|
    ensures Next(s, CompareSwap, atomic, m).shared == AllIncrements(Next(s, CompareSwap, atomic, m).threads) % WORD
  {
    hide AllIncrements, SetFree, Exclusive, SomeoneActive;
    var s' := Next(s, CompareSwap, atomic, m);
    assert ThreadOk(s, s.threads[m.t]);
    Bits.WrapIncrement(AllIncrements(s.threads), WORD);
    IncrementsUpdate(s.threads, m.t, s'.threads[m.t]);
  }

  lemma NextOther(s: State, atomic: bool, m: Move, i: nat)
    requires Inv(s) && m.t < |s.threads| && i < |s.threads| && i != m.t
    ensures ThreadOk(Next(s, CompareSwap, atomic, m), s.threads[i])
  {
    hide AllIncrements, SetFree, SomeoneActive;
    assert ThreadOk(s, s.threads[i]) && ThreadOk(s, s.threads[m.t]);
  }

  lemma ActiveMeansHeld(s: State)
    requires Inv(s)
    ensures SomeoneActive(s.threads) <==> s.word == HELD
  {
    hide AllIncrements;
    if SomeoneActive(s.threads) {
      var i :| 0 <= i < |s.threads| && Active(s.threads[i]);
      assert ThreadOk(s, s.threads[i]);
    }
  }

  lemma NextMoved(s: State, atomic: bool, m: Move)
    requires Inv(s) && m.t < |s.threads|
    ensures ThreadOk(Next(s, CompareSwap, atomic, m), Next(s, CompareSwap, atomic, m).threads[m.t])
  {
    hide AllIncrements, SetFree, Exclusive;
    var th := s.threads[m.t];
    assert ThreadOk(s, th);
    ActiveMeansHeld(s);
  }

  lemma NextQuiet(s: State, atomic: bool, m: Move)
    requires Inv(s) && m.t < |s.threads|
    ensures Exclusive(Next(s, CompareSwap, atomic, m).threads)
    ensures !SomeoneActive(Next(s, CompareSwap, atomic, m).threads) ==>
              Next(s, CompareSwap, atomic, m).word == FREE && Next(s, CompareSwap, atomic, m).occupancy == 0
  {
    hide AllIncrements, SetFree, Exclusive, SomeoneActive;
    ReleaseFrees();
    assert ThreadOk(s, s.threads[m.t]);
    NextShape(s, atomic, m);
    ActivityMoves(s, m.t, Next(s, CompareSwap, atomic, m).threads[m.t]);
  }

  /** Every step keeps the invariant, whatever the release variant. */
  lemma NextKeepsInv(s: State, atomic: bool, m: Move)
    requires Inv(s)
    ensures Inv(Next(s, CompareSwap, atomic, m)) && |Next(s, CompareSwap, atomic, m).threads| == |s.threads|
  {
    if m.t < |s.threads| {
      hide AllIncrements, Next, Exclusive, SomeoneActive, ThreadOk;
      NextShape(s, atomic, m);
      NextCounts(s, atomic, m);
      NextMoved(s, atomic, m);
      NextQuiet(s, atomic, m);
      forall i | 0 <= i < |s.threads|
        ensures ThreadOk(Next(s, CompareSwap, atomic, m), Next(s, CompareSwap, atomic, m).threads[i])
      {
        if i != m.t {
          NextOther(s, atomic, m, i);
        }
      }
    }
  }

  lemma {:induction false} RunKeepsInv(count: nat, atomic: bool, moves: seq<Move>)
    ensures Inv(After(count, CompareSwap, atomic, moves)) && |After(count, CompareSwap, atomic, moves).threads| == count
    decreases |moves|
  {
    if moves == [] {
      InitIncrements(count);
    } else {
      RunKeepsInv(count, atomic, moves[..|moves| - 1]);
      NextKeepsInv(After(count, CompareSwap, atomic, moves[..|moves| - 1]), atomic, moves[|moves| - 1]);
    }
  }

  /** In every run of any number of threads, with either release: at most one
      thread is inside or releasing, the word is HELD exactly when one is and
      FREE otherwise, and no thread ever found the section occupied. */
  lemma MutualExclusion(count: nat, atomic: bool, moves: seq<Move>)
    ensures var s := After(count, CompareSwap, atomic, moves);
            && Exclusive(s.threads)
            && s.word == (if SomeoneActive(s.threads) then HELD else FREE)
            && forall i :: 0 <= i < |s.threads| ==> s.threads[i].overlaps == 0
  {
    RunKeepsInv(count, atomic, moves);
    var s := After(count, CompareSwap, atomic, moves);
    forall i | 0 <= i < |s.threads| ensures s.threads[i].overlaps == 0 { assert ThreadOk(s, s.threads[i]); }
    ActiveMeansHeld(s);
  }

  /** The plain shared counter loses nothing: in every run it equals the
      completed increments, and once nobody is active, the acquisitions. */
  lemma CounterExact(count: nat, atomic: bool, moves: seq<Move>)
    ensures var s := After(count, CompareSwap, atomic, moves);
            && s.shared == AllIncrements(s.threads) % WORD
            && (!SomeoneActive(s.threads) ==> s.shared == AllAcquired(s.threads) % WORD)
  {
    RunKeepsInv(count, atomic, moves);
    var s := After(count, CompareSwap, atomic, moves);
    if !SomeoneActive(s.threads) { QuietIncrements(s.threads); }
  }

  lemma {:induction false} QuietIncrements(threads: seq<Thread>)
    requires !SomeoneActive(threads)
    ensures AllIncrements(threads) == AllAcquired(threads)
  {
    if threads != [] {
      assert !Active(threads[0]);
      forall i | 0 <= i < |threads[1..]| ensures !Active(threads[1..][i]) { assert !Active(threads[i + 1]); }
      QuietIncrements(threads[1..]);
    }
  }
}
