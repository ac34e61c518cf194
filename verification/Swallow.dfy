/** The mechanism arm of the lock probe: one thread keeps or-ing FREE into the
    word while the others each add one to it a fixed number of times. */
module Swallow {
  import opened LockWord

  /** The releaser between its load and its store has a copy of the word;
      `missed` counts the additions since the load. */
  datatype Releaser = Waiting | Holding(loaded: Word, missed: nat)

  /** `added` is how many additions each thread has made; `swallowed` and
      `releases` only record what happened. */
  datatype State = State(word: Word, added: seq<nat>, releaser: Releaser, releases: nat, swallowed: nat)

  datatype Move = Add(t: nat) | Release

  function Init(count: nat): State { State(0, seq(count, _ => 0), Waiting, 0, 0) }

  function Next(s: State, iters: nat, atomic: bool, m: Move): State {
    match m
    case Add(t) =>
      if t >= |s.added| || s.added[t] >= iters then s
      else s.(word := (s.word + 1) % WORD,
              added := s.added[t := s.added[t] + 1],
              releaser := if s.releaser.Holding? then s.releaser.(missed := s.releaser.missed + 1) else s.releaser)
    case Release =>
      match s.releaser
      case Waiting =>
        if atomic then s.(word := SetFree(s.word), releases := s.releases + 1)
        else s.(releaser := Holding(s.word, 0))
      case Holding(loaded, missed) =>
        s.(word := SetFree(loaded), releaser := Waiting, releases := s.releases + 1, swallowed := s.swallowed + missed)
  }

  function After(count: nat, iters: nat, atomic: bool, moves: seq<Move>): State
    decreases |moves|
  {
    if moves == [] then Init(count)
    else Next(After(count, iters, atomic, moves[..|moves| - 1]), iters, atomic, moves[|moves| - 1])
  }

  function Total(added: seq<nat>): nat { if added == [] then 0 else added[0] + Total(added[1..]) }

  ghost predicate Inv(s: State, iters: nat, atomic: bool) {
    && (forall t :: 0 <= t < |s.added| ==> s.added[t] <= iters)
    && Low31(s.word) + s.swallowed == Total(s.added)
    && (s.word >= FREE <==> s.releases > 0)
    && (s.releaser.Holding? ==> !atomic && Low31(s.releaser.loaded) + s.releaser.missed == Low31(s.word))
    && (atomic ==> s.swallowed == 0)
  }

  lemma {:induction false} TotalUpdate(added: seq<nat>, t: nat, x: nat)
    requires t < |added|
    ensures Total(added[t := x]) == Total(added) - added[t] + x
  {
    if t == 0 {
      assert added[t := x][1..] == added[1..];
    } else {
      assert added[t := x][1..] == added[1..][t - 1 := x];
      TotalUpdate(added[1..], t - 1, x);
    }
  }

  lemma {:induction false} TotalBounded(added: seq<nat>, iters: nat)
    requires forall t :: 0 <= t < |added| ==> added[t] <= iters
    ensures Total(added) <= |added| * iters
    ensures (forall t :: 0 <= t < |added| ==> added[t] == iters) ==> Total(added) == |added| * iters
  {
    if added != [] {
      TotalBounded(added[1..], iters);
      assert |added| * iters == iters + (|added| - 1) * iters;
    }
  }

  lemma {:induction false} InitTotal(count: nat)
    ensures Total(Init(count).added) == 0
  {
    if count > 0 {
      assert Init(count).added[1..] == Init(count - 1).added;
      InitTotal(count - 1);
    }
  }

  lemma AddStaysLow(w: Word)
    ensures Low31(w) + 1 < FREE ==>
              var w' := (w + 1) % WORD; Low31(w') == Low31(w) + 1 && (w' >= FREE <==> w >= FREE)
  {
    hide Low31;
    Low31Value(w);
    Low31Value((w + 1) % WORD);
  }

  lemma AddKeepsInv(s: State, iters: nat, atomic: bool, t: nat)
    requires Inv(s, iters, atomic) && |s.added| * iters < FREE
    ensures Inv(Next(s, iters, atomic, Add(t)), iters, atomic)
  {
    hide Total, Low31, SetFree;
    if t < |s.added| && s.added[t] < iters {
      TotalUpdate(s.added, t, s.added[t] + 1);
      TotalBounded(s.added[t := s.added[t] + 1], iters);
      AddStaysLow(s.word);
    }
  }

  lemma ReleaseKeepsInv(s: State, iters: nat, atomic: bool)
    requires Inv(s, iters, atomic)
    ensures Inv(Next(s, iters, atomic, Release), iters, atomic)
  {
    hide Total, Low31, SetFree;
    var s' := Next(s, iters, atomic, Release);
    SetFreeKeepsLow(s.word);
    if s.releaser.Holding? {
      SetFreeKeepsLow(s.releaser.loaded);
    }
  }

  lemma SetFreeKeepsLow(w: Word)
    ensures Low31(SetFree(w)) == Low31(w) && SetFree(w) >= FREE
  {
    SetFreeValue(w);
    Low31Value(w);
    Low31Value(SetFree(w));
  }

  lemma {:induction false} RunKeepsInv(count: nat, iters: nat, atomic: bool, moves: seq<Move>)
    requires count * iters < FREE
    ensures Inv(After(count, iters, atomic, moves), iters, atomic)
    ensures |After(count, iters, atomic, moves).added| == count
    decreases |moves|
  {
    hide Low31, SetFree;
    if moves == [] {
      InitTotal(count);
      Low31Value(0);
    } else {
      var s := After(count, iters, atomic, moves[..|moves| - 1]);
      RunKeepsInv(count, iters, atomic, moves[..|moves| - 1]);
      match moves[|moves| - 1]
      case Add(t) => AddKeepsInv(s, iters, atomic, t);
      case Release => ReleaseKeepsInv(s, iters, atomic);
    }
  }

  /** At every moment of every run the low 31 bits count the additions exactly, but
      for those made between the load and the store of a completed plain release;
      bit 31 is set exactly when a release has completed. */
  lemma LowBitsCountAdditions(count: nat, iters: nat, atomic: bool, moves: seq<Move>)
    requires count * iters < FREE
    ensures var s := After(count, iters, atomic, moves);
            && Low31(s.word) + s.swallowed == Total(s.added)
            && (s.word >= FREE <==> s.releases > 0)
  {
    RunKeepsInv(count, iters, atomic, moves);
  }

  /** What the probe reports once every adder has finished: the shortfall is the
      number of swallowed additions, never negative, and zero for the atomic
      release. */
  lemma ShortfallIsSwallowed(count: nat, iters: nat, atomic: bool, moves: seq<Move>)
    requires count * iters < FREE
    requires Finished(After(count, iters, atomic, moves), iters)
    ensures var s := After(count, iters, atomic, moves);
            && count * iters - Low31(s.word) == s.swallowed
            && (atomic ==> s.swallowed == 0)
  {
    hide Low31, Total;
    RunKeepsInv(count, iters, atomic, moves);
    TotalBounded(After(count, iters, atomic, moves).added, iters);
  }

  lemma AfterSnoc(count: nat, iters: nat, atomic: bool, moves: seq<Move>, m: Move)
    ensures After(count, iters, atomic, moves + [m]) == Next(After(count, iters, atomic, moves), iters, atomic, m)
  {
    assert (moves + [m])[..|moves|] == moves;
  }

  ghost predicate Finished(s: State, iters: nat) {
    forall t :: 0 <= t < |s.added| ==> s.added[t] == iters
  }

  /** While the releaser holds its copy, every adder can run to its end. */
  lemma {:induction false} FinishInWindow(count: nat, iters: nat, moves: seq<Move>) returns (more: seq<Move>)
    requires count * iters < FREE && After(count, iters, false, moves).releaser.Holding?
    ensures After(count, iters, false, more).releaser.Holding? && Finished(After(count, iters, false, more), iters)
    ensures After(count, iters, false, more).releaser.loaded == After(count, iters, false, moves).releaser.loaded
    decreases count * iters - Total(After(count, iters, false, moves).added)
  {
    hide After, Low31, Total, SetFree;
    var s := After(count, iters, false, moves);
    RunKeepsInv(count, iters, false, moves);
    if Finished(s, iters) {
      more := moves;
    } else {
      var t :| 0 <= t < |s.added| && s.added[t] != iters;
      AfterSnoc(count, iters, false, moves, Add(t));
      TotalUpdate(s.added, t, s.added[t] + 1);
      TotalBounded(s.added[t := s.added[t] + 1], iters);
      more := FinishInWindow(count, iters, moves + [Add(t)]);
    }
  }

  /** The worst case of the plain release is reached: some run swallows every
      addition, leaving no trace of them in the word. */
  lemma EverythingCanBeSwallowed(count: nat, iters: nat)
    requires count * iters < FREE
    ensures exists moves :: var s := After(count, iters, false, moves);
                            Finished(s, iters) && Low31(s.word) == 0 && s.swallowed == count * iters
  {
    hide Low31, SetFree;
    AfterSnoc(count, iters, false, [], Release);
    var moves := FinishInWindow(count, iters, [] + [Release]);
    AfterSnoc(count, iters, false, moves, Release);
    SetFreeKeepsLow(0);
    Low31Value(0);
    ShortfallIsSwallowed(count, iters, false, moves + [Release]);
    var s := After(count, iters, false, moves + [Release]);
    assert Finished(s, iters) && Low31(s.word) == 0 && s.swallowed == count * iters;
  }
}
