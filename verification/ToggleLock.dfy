/** The guest's own lock: the acquire toggles bit 31. It can never wedge, and it
    excludes exactly as long as it is tried at most once while it is taken. */
module ToggleLock {
  import opened LockWord
  import opened LockProtocol

  predicate FreeOrHeld(w: Word) { w == FREE || w == HELD }

  ghost predicate Inv(s: State) {
    && FreeOrHeld(s.word)
    && (forall i :: 0 <= i < |s.threads| && s.threads[i].pc.Storing? ==> FreeOrHeld(s.threads[i].pc.loaded))
    && (s.word == HELD ==> SomeoneActive(s.threads))
  }

  lemma ReleaseAlwaysFrees()
    ensures SetFree(HELD) == FREE && SetFree(FREE) == FREE
  {
    SetFreeValue(HELD);
    SetFreeValue(FREE);
  }

  lemma NextKeepsInv(s: State, atomic: bool, m: Move)
    requires Inv(s)
    ensures Inv(Next(s, Toggling, atomic, m)) && |Next(s, Toggling, atomic, m).threads| == |s.threads|
  {
    hide SetFree;
    ReleaseAlwaysFrees();
    var s' := Next(s, Toggling, atomic, m);
    if s'.word == HELD && m.t < |s.threads| {
      if s.word == FREE {
        assert Active(s'.threads[m.t]);
      } else {
        var i :| 0 <= i < |s.threads| && Active(s.threads[i]);
        assert Active(s'.threads[i]);
      }
    }
  }

  lemma {:induction false} RunKeepsInv(count: nat, atomic: bool, moves: seq<Move>)
    ensures Inv(After(count, Toggling, atomic, moves)) && |After(count, Toggling, atomic, moves).threads| == count
    decreases |moves|
  {
    if moves != [] {
      RunKeepsInv(count, atomic, moves[..|moves| - 1]);
      NextKeepsInv(After(count, Toggling, atomic, moves[..|moves| - 1]), atomic, moves[|moves| - 1]);
    }
  }

  /** In every run, with either release, bits 0 to 30 stay clear and the word is
      never HELD with nobody inside or releasing: a lost release update can only
      publish FREE too often. */
  lemma NeverWedged(count: nat, atomic: bool, moves: seq<Move>)
    ensures var s := After(count, Toggling, atomic, moves);
            FreeOrHeld(s.word) && (s.word == HELD ==> SomeoneActive(s.threads))
  {
    RunKeepsInv(count, atomic, moves);
  }

  lemma AfterSnoc(count: nat, atomic: bool, moves: seq<Move>, m: Move)
    ensures After(count, Toggling, atomic, moves + [m])
            == Next(After(count, Toggling, atomic, moves), Toggling, atomic, m)
  {
    assert (moves + [m])[..|moves|] == moves;
  }

  lemma AfterTwice(count: nat, atomic: bool, moves: seq<Move>, m: Move)
    ensures var s := After(count, Toggling, atomic, moves);
            After(count, Toggling, atomic, moves + [m, m])
            == Next(Next(s, Toggling, atomic, m), Toggling, atomic, m)
  {
    AfterSnoc(count, atomic, moves, m);
    AfterSnoc(count, atomic, moves + [m], m);
    assert moves + [m] + [m] == moves + [m, m];
  }

  /** No thread starves on the word: in every reachable state, an idle thread that
      takes its next two steps undisturbed holds the lock, having failed at most
      once, and failed exactly when the word was HELD. */
  lemma UndisturbedRetrySucceeds(count: nat, atomic: bool, moves: seq<Move>, t: nat)
    requires t < count && |After(count, Toggling, atomic, moves).threads| == count
    requires After(count, Toggling, atomic, moves).threads[t].pc == Idle
    ensures var s := After(count, Toggling, atomic, moves);
            var s' := After(count, Toggling, atomic, moves + [Move(t, false), Move(t, false)]);
            && |s'.threads| == count
            && Active(s'.threads[t])
            && s'.threads[t].failed == s.threads[t].failed + if s.word == HELD then 1 else 0
  {
    hide SetFree, After;
    RunKeepsInv(count, atomic, moves);
    AfterTwice(count, atomic, moves, Move(t, false));
  }

  /** The move is an acquire attempt in this state. */
  predicate Attempts(s: State, m: Move) {
    m.t < |s.threads| && s.threads[m.t].pc.Idle? && !m.stop
  }

  /** How often the lock has been tried since it was last untaken: attempts made
      while some thread was active. */
  ghost function Disturbances(count: nat, atomic: bool, moves: seq<Move>): nat
    decreases |moves|
  {
    if moves == [] then 0
    else
      var before, m := moves[..|moves| - 1], moves[|moves| - 1];
      var s := After(count, Toggling, atomic, before);
      if !SomeoneActive(After(count, Toggling, atomic, moves).threads) then 0
      else Disturbances(count, atomic, before) + if Attempts(s, m) && SomeoneActive(s.threads) then 1 else 0
  }

  /** Exclusion held at every moment of the run. */
  ghost predicate AlwaysExclusive(count: nat, atomic: bool, moves: seq<Move>) {
    forall k :: 0 <= k <= |moves| ==> Exclusive(After(count, Toggling, atomic, moves[..k]).threads)
  }

  /** At no moment had a taken lock been tried more than once. */
  ghost predicate TriedAtMostOnce(count: nat, atomic: bool, moves: seq<Move>) {
    forall k :: 0 <= k <= |moves| ==> Disturbances(count, atomic, moves[..k]) <= 1
  }

  /** With d disturbances: exclusive, and the word is HELD only while the one active
      thread has not been disturbed. */
  ghost predicate Orderly(s: State, d: nat) {
    && Exclusive(s.threads) && d <= (if SomeoneActive(s.threads) then 1 else 0)
    && s.word == if SomeoneActive(s.threads) && d == 0 then HELD else FREE
  }

  /** Who is active after a step: everybody else as before. */
  lemma ActivityMoves(s: State, atomic: bool, m: Move)
    requires m.t < |s.threads|
    ensures var s' := Next(s, Toggling, atomic, m);
            && |s'.threads| == |s.threads|
            && (Attempts(s, m) ==> Active(s'.threads[m.t]) == (s.word == FREE))
            && (!Attempts(s, m) && Active(s'.threads[m.t]) ==> Active(s.threads[m.t]) && s'.word == s.word)
            && (forall i :: 0 <= i < |s.threads| && i != m.t ==> s'.threads[i] == s.threads[i])
  {
    hide SetFree;
  }

  /** Who makes a list of threads not exclusive, or someone active in it. */
  lemma OneMoved(threads: seq<Thread>, threads': seq<Thread>, t: nat)
    requires t < |threads| == |threads'| && Exclusive(threads)
    requires forall i :: 0 <= i < |threads| && i != t ==> threads'[i] == threads[i]
    ensures SomeoneActive(threads) && !Active(threads[t]) ==>
              SomeoneActive(threads') && (Active(threads'[t]) <==> !Exclusive(threads'))
    ensures !SomeoneActive(threads) || Active(threads[t]) ==>
              Exclusive(threads') && (SomeoneActive(threads') <==> Active(threads'[t]))
  {
    if SomeoneActive(threads) && !Active(threads[t]) {
      var i :| 0 <= i < |threads| && Active(threads[i]);
      assert Active(threads'[i]);
    }
  }

  /** An orderly state stays orderly through a move exactly when the move is not the
      second disturbance; if it is, exclusion is lost there and then. */
  lemma NextOrderly(s: State, atomic: bool, m: Move, d: nat)
    requires Inv(s) && Orderly(s, d)
    ensures var s' := Next(s, Toggling, atomic, m);
            var d' := if !SomeoneActive(s'.threads) then 0
                      else d + if Attempts(s, m) && SomeoneActive(s.threads) then 1 else 0;
            if d' <= 1 then Orderly(s', d') else !Exclusive(s'.threads)
  {
    if m.t < |s.threads| {
      hide Next, Exclusive, SomeoneActive;
      var s' := Next(s, Toggling, atomic, m);
      ActivityMoves(s, atomic, m);
      OneMoved(s.threads, s'.threads, m.t);
      WordMoves(s, atomic, m);
      if Active(s.threads[m.t]) {
        assert SomeoneActive(s.threads) by { SomeoneIs(s.threads, m.t); }
      }
    }
  }

  lemma SomeoneIs(threads: seq<Thread>, i: nat)
    requires i < |threads| && Active(threads[i])
    ensures SomeoneActive(threads)
  {
  }

  /** What a move does to the word: an attempt toggles it, leaving the section frees
      it, anything else keeps it. */
  lemma WordMoves(s: State, atomic: bool, m: Move)
    requires Inv(s) && m.t < |s.threads|
    ensures var s' := Next(s, Toggling, atomic, m);
            && |s'.threads| == |s.threads|
            && s'.word == (if Attempts(s, m) then (if s.word == FREE then HELD else FREE)
                           else if Active(s.threads[m.t]) && !Active(s'.threads[m.t]) then FREE
                           else s.word)
  {
    hide SetFree, SomeoneActive;
    ReleaseAlwaysFrees();
  }

  lemma TriedOnceSnoc(count: nat, atomic: bool, moves: seq<Move>)
    ensures TriedAtMostOnce(count, atomic, moves) <==>
            || moves == []
            || (TriedAtMostOnce(count, atomic, moves[..|moves| - 1]) && Disturbances(count, atomic, moves) <= 1)
  {
    hide Disturbances;
    if moves == [] {
      NothingTried(count, atomic);
      assert forall k :: 0 <= k <= |moves| ==> moves[..k] == [];
    } else {
      var before := moves[..|moves| - 1];
      assert moves[..|moves|] == moves;
      assert forall k :: 0 <= k <= |before| ==> moves[..k] == before[..k];
    }
  }

  /** As long as a taken lock has been tried at most once the state is orderly, and
      the move that tries it a second time ends exclusion. */
  lemma {:induction false} TriedOnceOrderly(count: nat, atomic: bool, moves: seq<Move>)
    requires moves == [] || TriedAtMostOnce(count, atomic, moves[..|moves| - 1])
    ensures var s, d := After(count, Toggling, atomic, moves), Disturbances(count, atomic, moves);
            if d <= 1 then Orderly(s, d) else !Exclusive(s.threads)
    decreases |moves|
  {
    hide TriedAtMostOnce;
    if moves != [] {
      var before := moves[..|moves| - 1];
      TriedOnceSnoc(count, atomic, before);
      TriedOnceOrderly(count, atomic, before);
      RunKeepsInv(count, atomic, before);
      NothingTried(count, atomic);
      var s, d := After(count, Toggling, atomic, before), Disturbances(count, atomic, before);
      NextOrderly(s, atomic, moves[|moves| - 1], d);
    }
  }

  lemma NothingTried(count: nat, atomic: bool)
    ensures Disturbances(count, atomic, []) == 0
  {
  }

  /** The first moment a taken lock has been tried a second time. */
  lemma {:induction false} SecondTryBreaks(count: nat, atomic: bool, moves: seq<Move>) returns (k: nat)
    requires !TriedAtMostOnce(count, atomic, moves)
    ensures k <= |moves| && !Exclusive(After(count, Toggling, atomic, moves[..k]).threads)
    decreases |moves|
  {
    hide TriedAtMostOnce, Disturbances, After, Exclusive;
    TriedOnceSnoc(count, atomic, moves);
    var before := moves[..|moves| - 1];
    if TriedAtMostOnce(count, atomic, before) {
      k := |moves|;
      TriedOnceOrderly(count, atomic, moves);
      assert moves[..k] == moves;
    } else {
      k := SecondTryBreaks(count, atomic, before);
      assert before[..k] == moves[..k];
    }
  }

  /** Exactly when the toggle excludes, over every run of any number of threads and
      either release: at every moment of the run at most one thread is active if and
      only if at every moment a taken lock has been tried at most once since it was
      last untaken. */
  lemma ExcludesIffTriedAtMostOnce(count: nat, atomic: bool, moves: seq<Move>)
    ensures AlwaysExclusive(count, atomic, moves) <==> TriedAtMostOnce(count, atomic, moves)
  {
    hide After, Disturbances, Exclusive;
    if TriedAtMostOnce(count, atomic, moves) {
      forall k | 0 <= k <= |moves| ensures Exclusive(After(count, Toggling, atomic, moves[..k]).threads) {
        PrefixTriedOnce(count, atomic, moves, k);
        TriedOnceSnoc(count, atomic, moves[..k]);
        TriedOnceOrderly(count, atomic, moves[..k]);
        NothingTried(count, atomic);
      }
    } else {
      var k := SecondTryBreaks(count, atomic, moves);
    }
  }

  lemma PrefixTriedOnce(count: nat, atomic: bool, moves: seq<Move>, k: nat)
    requires k <= |moves| && TriedAtMostOnce(count, atomic, moves)
    ensures TriedAtMostOnce(count, atomic, moves[..k])
  {
    hide Disturbances;
    forall j | 0 <= j <= k ensures Disturbances(count, atomic, moves[..k][..j]) <= 1 {
      assert moves[..k][..j] == moves[..j];
    }
  }

  /** One waiter is enough to break it: in any run so far exclusive and undisturbed,
      two steps of an idle thread keep exclusion if and only if nobody was active
      when that thread came. */
  lemma OneWaiterBreaksIt(count: nat, atomic: bool, moves: seq<Move>, t: nat)
    requires TriedAtMostOnce(count, atomic, moves) && Disturbances(count, atomic, moves) == 0
    requires t < count && |After(count, Toggling, atomic, moves).threads| == count
    requires After(count, Toggling, atomic, moves).threads[t].pc == Idle
    ensures Exclusive(After(count, Toggling, atomic, moves).threads)
    ensures Exclusive(After(count, Toggling, atomic, moves + [Move(t, false), Move(t, false)]).threads) <==>
            !SomeoneActive(After(count, Toggling, atomic, moves).threads)
  {
    hide SetFree, After, Disturbances;
    var m := Move(t, false);
    var s := After(count, Toggling, atomic, moves);
    TriedOnceSnoc(count, atomic, moves);
    TriedOnceOrderly(count, atomic, moves);
    AfterTwice(count, atomic, moves, m);
    var s' := Next(s, Toggling, atomic, m);
    var s'' := Next(s', Toggling, atomic, m);
    if SomeoneActive(s.threads) {
      var i :| 0 <= i < |s.threads| && Active(s.threads[i]);
      assert s''.threads[i] == s.threads[i] && Active(s''.threads[i]);
      assert Active(s''.threads[t]);
    }
  }

  /** Thread i of a pile-up: at stage 1 it has acquired, at 2 it occupies, at 3 it
      has read the counter, at 4 it has written it. All but the first failed once. */
  function Piled(stage: nat, i: nat): Thread {
    var later := if i > 0 then 1 else 0;
    Thread(if stage == 0 then Idle else if stage == 1 then Entering else if stage == 2 then Reading
           else if stage == 3 then Writing(0) else Leaving,
           0, if stage > 0 then later else 0, if stage > 1 then later else 0)
  }

  /** n threads, the first k of them one stage further than the others. */
  function PileUp(n: nat, stage: nat, k: nat): State {
    State(if stage == 0 && k == 0 then FREE else HELD,
          if stage == 0 then 0 else if stage == 1 then k else n,
          if stage > 3 || (stage == 3 && k > 0) then 1 else 0,
          PiledThreads(n, stage, k))
  }

  function PiledThreads(n: nat, stage: nat, k: nat): (r: seq<Thread>)
    ensures |r| == n && forall i :: 0 <= i < n ==> r[i] == Piled(if i < k then stage + 1 else stage, i)
  {
    seq(n, i requires 0 <= i => Piled(if i < k then stage + 1 else stage, i))
  }

  /** The schedule: each thread in turn attempts until it is in, then each takes
      one step, stage after stage. */
  function Schedule(n: nat, stage: nat, k: nat): seq<Move>
    decreases stage, k
  {
    if k > 0 then
      Schedule(n, stage, k - 1) +
      if stage == 0 && k > 1 then [Move(k - 1, false), Move(k - 1, false)] else [Move(k - 1, false)]
    else if stage == 0 then []
    else Schedule(n, stage - 1, n)
  }

  lemma PileFirst(n: nat, atomic: bool)
    requires 0 < n
    ensures Next(PileUp(n, 0, 0), Toggling, atomic, Move(0, false)) == PileUp(n, 0, 1)
  {
    var s, s' := PileUp(n, 0, 0), PileUp(n, 0, 1);
    assert s.threads[0].pc == Idle && s'.threads == s.threads[0 := s'.threads[0]];
  }

  lemma PileNext(n: nat, k: nat, atomic: bool)
    requires 0 < k < n
    ensures Next(Next(PileUp(n, 0, k), Toggling, atomic, Move(k, false)), Toggling, atomic, Move(k, false))
            == PileUp(n, 0, k + 1)
  {
    var s, s' := PileUp(n, 0, k), PileUp(n, 0, k + 1);
    assert s.threads[k] == Thread(Idle, 0, 0, 0);
    assert s'.threads == s.threads[k := s'.threads[k]];
    assert s.threads[k := Thread(Idle, 0, 1, 0)][k := s'.threads[k]] == s'.threads;
  }

  lemma PileStage(n: nat, stage: nat, k: nat, atomic: bool)
    requires 1 <= stage <= 3 && k < n
    ensures Next(PileUp(n, stage, k), Toggling, atomic, Move(k, false)) == PileUp(n, stage, k + 1)
  {
    var s, s' := PileUp(n, stage, k), PileUp(n, stage, k + 1);
    assert s.threads[k] == Piled(stage, k);
    assert s'.threads == s.threads[k := s'.threads[k]];
  }

  lemma {:induction false} ScheduleWorks(n: nat, stage: nat, k: nat, atomic: bool)
    requires stage <= 3 && k <= n && (stage > 0 ==> n > 0)
    ensures After(n, Toggling, atomic, Schedule(n, stage, k)) == PileUp(n, stage, k)
    decreases stage, k
  {
    if k > 0 {
      var moves, m := Schedule(n, stage, k - 1), Move(k - 1, false);
      ScheduleWorks(n, stage, k - 1, atomic);
      AfterSnoc(n, atomic, moves, m);
      AfterTwice(n, atomic, moves, m);
      if stage > 0 {
        PileStage(n, stage, k - 1, atomic);
      } else if k == 1 {
        PileFirst(n, atomic);
      } else {
        PileNext(n, k - 1, atomic);
      }
    } else if stage > 0 {
      ScheduleWorks(n, stage - 1, n, atomic);
      assert PileUp(n, stage - 1, n).threads == PileUp(n, stage, 0).threads;
    } else {
      assert PileUp(n, 0, 0).threads == Init(n).threads;
    }
  }

  lemma {:induction false} PiledIncrements(n: nat)
    ensures AllIncrements(PileUp(n, 3, n).threads) == n
  {
    AllLeaving(PileUp(n, 3, n).threads);
  }

  lemma PiledOverlaps(n: nat)
    requires n > 0
    ensures Occupants(PileUp(n, 1, n).threads) == n && AllOverlaps(PileUp(n, 1, n).threads) == n - 1
  {
    var threads := PileUp(n, 1, n).threads;
    AllInside(threads[1..]);
  }

  lemma {:induction false} AllInside(threads: seq<Thread>)
    requires forall i :: 0 <= i < |threads| ==> Occupies(threads[i]) && threads[i].overlaps == 1
    ensures Occupants(threads) == AllOverlaps(threads) == |threads|
  {
    if threads != [] {
      AllInside(threads[1..]);
    }
  }

  lemma {:induction false} AllLeaving(threads: seq<Thread>)
    requires forall i :: 0 <= i < |threads| ==> Increments(threads[i]) == 1
    ensures AllIncrements(threads) == |threads|
  {
    if threads != [] {
      AllLeaving(threads[1..]);
    }
  }

  /** With the toggle nothing bounds the damage: for every n there is a run, with
      either release, in which all n threads are in the critical section at once,
      and a run after which n increments have left the shared counter at one. */
  lemma NoExclusionAtAll(n: nat, atomic: bool)
    requires n > 0
    ensures exists moves :: var s := After(n, Toggling, atomic, moves);
                            s.occupancy == Occupants(s.threads) == n && AllOverlaps(s.threads) == n - 1
    ensures exists moves :: var s := After(n, Toggling, atomic, moves);
                            s.shared == 1 && AllIncrements(s.threads) == n
  {
    hide After, AllIncrements, Occupants, AllOverlaps;
    ScheduleWorks(n, 1, n, atomic);
    PiledOverlaps(n);
    var inside := After(n, Toggling, atomic, Schedule(n, 1, n));
    assert inside.occupancy == Occupants(inside.threads) == n && AllOverlaps(inside.threads) == n - 1;
    ScheduleWorks(n, 3, n, atomic);
    PiledIncrements(n);
    var s := After(n, Toggling, atomic, Schedule(n, 3, n));
    assert s.shared == 1 && AllIncrements(s.threads) == n;
  }
}
