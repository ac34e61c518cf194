/** The lock probe's worker loop: any number of threads take the lock, bump a
    plain shared counter inside, and release by or-ing the FREE bit, either
    atomically or as a separate load and store. The acquire is the guest's toggle
    or the control arm's compare-and-swap. */
module LockProtocol {
  import opened LockWord

  datatype Acquire = Toggling | CompareSwap

  /** Where a thread is. Entering and leaving are the occupancy counter's two
      atomic updates; the shared counter is read and written in separate steps;
      a plain release has loaded the word and not yet stored it. */
  datatype Pc =
    | Idle
    | Entering
    | Reading
    | Writing(value: nat)
    | Leaving
    | Releasing
    | Storing(loaded: Word)
    | Exited

  datatype Thread = Thread(pc: Pc, acquired: nat, failed: nat, overlaps: nat)

  datatype State = State(word: Word, occupancy: int, shared: nat, threads: seq<Thread>)

  /** The next step of thread t; `stop` is what it reads of the stop flag when it
      is at the head of its loop. */
  datatype Move = Move(t: nat, stop: bool)

  function Init(count: nat): State { State(FREE, 0, 0, seq(count, _ => Thread(Idle, 0, 0, 0))) }

  /** The word after an acquire attempt; the attempt succeeds iff the word was FREE. */
  function Attempt(acquire: Acquire, word: Word): Word {
    match acquire
    case Toggling => Toggle(word)
    case CompareSwap => if word == FREE then HELD else word
  }

  function Next(s: State, acquire: Acquire, atomic: bool, m: Move): State {
    if m.t >= |s.threads| then s else
    var th := s.threads[m.t];
    match th.pc
    case Idle =>
      if m.stop then s.(threads := s.threads[m.t := th.(pc := Exited)])
      else
        var word := Attempt(acquire, s.word);
        if s.word == FREE then s.(word := word, threads := s.threads[m.t := th.(pc := Entering)])
        else s.(word := word, threads := s.threads[m.t := th.(failed := th.failed + 1)])
    case Entering =>
      var overlap := if s.occupancy != 0 then 1 else 0;
      s.(occupancy := s.occupancy + 1,
         threads := s.threads[m.t := th.(pc := Reading, overlaps := th.overlaps + overlap)])
    case Reading => s.(threads := s.threads[m.t := th.(pc := Writing(s.shared))])
    case Writing(value) => s.(shared := (value + 1) % WORD, threads := s.threads[m.t := th.(pc := Leaving)])
    case Leaving => s.(occupancy := s.occupancy - 1, threads := s.threads[m.t := th.(pc := Releasing)])
    case Releasing =>
      if atomic then
        s.(word := SetFree(s.word), threads := s.threads[m.t := th.(pc := Idle, acquired := th.acquired + 1)])
      else s.(threads := s.threads[m.t := th.(pc := Storing(s.word))])
    case Storing(loaded) =>
      s.(word := SetFree(loaded), threads := s.threads[m.t := th.(pc := Idle, acquired := th.acquired + 1)])
    case Exited => s
  }

  function After(count: nat, acquire: Acquire, atomic: bool, moves: seq<Move>): State
    decreases |moves|
  {
    if moves == [] then Init(count)
    else Next(After(count, acquire, atomic, moves[..|moves| - 1]), acquire, atomic, moves[|moves| - 1])
  }

  /** Inside the critical section or in the middle of the release. */
  predicate Active(th: Thread) { !th.pc.Idle? && !th.pc.Exited? }

  /** Counted by the occupancy counter. */
  predicate Occupies(th: Thread) { th.pc.Reading? || th.pc.Writing? || th.pc.Leaving? }

  /** Increments of the shared counter this thread has completed. */
  function Increments(th: Thread): nat {
    th.acquired + if th.pc.Leaving? || th.pc.Releasing? || th.pc.Storing? then 1 else 0
  }

  function AllIncrements(threads: seq<Thread>): nat {
    if threads == [] then 0 else Increments(threads[0]) + AllIncrements(threads[1..])
  }

  function AllAcquired(threads: seq<Thread>): nat {
    if threads == [] then 0 else threads[0].acquired + AllAcquired(threads[1..])
  }

  /** At most one thread is active. */
  ghost predicate Exclusive(threads: seq<Thread>) {
    forall i, j :: 0 <= i < |threads| && 0 <= j < |threads| && Active(threads[i]) && Active(threads[j]) ==> i == j
  }

  ghost predicate SomeoneActive(threads: seq<Thread>) {
    exists i :: 0 <= i < |threads| && Active(threads[i])
  }

  lemma ReleaseFrees()
    ensures SetFree(HELD) == FREE
  {
    SetFreeValue(HELD);
  }

  // ----- what the occupancy counter and the overlap counters count

  function Occupants(threads: seq<Thread>): nat {
    if threads == [] then 0 else (if Occupies(threads[0]) then 1 else 0) + Occupants(threads[1..])
  }

  function AllOverlaps(threads: seq<Thread>): nat {
    if threads == [] then 0 else threads[0].overlaps + AllOverlaps(threads[1..])
  }

  /** How often in a run a thread has entered the section while another was in it. */
  ghost function Intrusions(count: nat, acquire: Acquire, atomic: bool, moves: seq<Move>): nat
    decreases |moves|
  {
    if moves == [] then 0
    else
      var before, m := moves[..|moves| - 1], moves[|moves| - 1];
      Intrusions(count, acquire, atomic, before) + if Intrudes(After(count, acquire, atomic, before), m) then 1 else 0
  }

  ghost predicate Intrudes(s: State, m: Move) {
    && m.t < |s.threads| && s.threads[m.t].pc == Entering
    && exists i :: 0 <= i < |s.threads| && Occupies(s.threads[i])
  }

  lemma {:induction false} SomeOccupant(threads: seq<Thread>)
    ensures Occupants(threads) > 0 <==> exists i :: 0 <= i < |threads| && Occupies(threads[i])
  {
    if threads != [] {
      SomeOccupant(threads[1..]);
      if i :| 0 <= i < |threads[1..]| && Occupies(threads[1..][i]) {
        assert Occupies(threads[i + 1]);
      }
      if i :| 0 <= i < |threads| && Occupies(threads[i]) {
        assert i > 0 ==> Occupies(threads[1..][i - 1]);
      }
    }
  }

  lemma {:induction false} SectionUpdate(threads: seq<Thread>, t: nat, th: Thread)
    requires t < |threads|
    ensures Occupants(threads[t := th])
            == Occupants(threads) - (if Occupies(threads[t]) then 1 else 0) + if Occupies(th) then 1 else 0
    ensures AllOverlaps(threads[t := th]) == AllOverlaps(threads) - threads[t].overlaps + th.overlaps
  {
    if t == 0 {
      assert threads[t := th][1..] == threads[1..];
    } else {
      assert threads[t := th][1..] == threads[1..][t - 1 := th];
      SectionUpdate(threads[1..], t - 1, th);
    }
  }

  lemma {:induction false} InitSection(count: nat)
    ensures Occupants(Init(count).threads) == 0 && AllOverlaps(Init(count).threads) == 0
  {
    if count > 0 {
      assert Init(count).threads[1..] == Init(count - 1).threads;
      InitSection(count - 1);
    }
  }

  /** A step changes the moving thread only, and the two counters as it goes in or out. */
  lemma NextThread(s: State, acquire: Acquire, atomic: bool, m: Move)
    requires m.t < |s.threads|
    ensures var s' := Next(s, acquire, atomic, m);
            && |s'.threads| == |s.threads| && s'.threads == s.threads[m.t := s'.threads[m.t]]
            && s'.occupancy == s.occupancy - (if Occupies(s.threads[m.t]) then 1 else 0)
                               + (if Occupies(s'.threads[m.t]) then 1 else 0)
            && s'.threads[m.t].overlaps == s.threads[m.t].overlaps
                               + if s.threads[m.t].pc == Entering && s.occupancy != 0 then 1 else 0
  {
    hide Attempt, SetFree;
  }

  lemma NextSection(s: State, acquire: Acquire, atomic: bool, m: Move)
    requires s.occupancy == Occupants(s.threads)
    ensures var s' := Next(s, acquire, atomic, m);
            && s'.occupancy == Occupants(s'.threads)
            && AllOverlaps(s'.threads) == AllOverlaps(s.threads) + if Intrudes(s, m) then 1 else 0
  {
    if m.t < |s.threads| {
      hide Occupants, AllOverlaps, Next, Occupies;
      SomeOccupant(s.threads);
      NextThread(s, acquire, atomic, m);
      SectionUpdate(s.threads, m.t, Next(s, acquire, atomic, m).threads[m.t]);
    }
  }

  /** In every run, with either acquire and either release, the occupancy counter is
      the number of threads in the section, and the overlaps counted are the entries
      made while another thread was in it. */
  lemma {:induction false} OverlapsAreIntrusions(count: nat, acquire: Acquire, atomic: bool, moves: seq<Move>)
    ensures var s := After(count, acquire, atomic, moves);
            && s.occupancy == Occupants(s.threads)
            && AllOverlaps(s.threads) == Intrusions(count, acquire, atomic, moves)
    decreases |moves|
  {
    if moves == [] {
      InitSection(count);
    } else {
      hide Next, Occupants, AllOverlaps, Intrudes;
      var before := moves[..|moves| - 1];
      OverlapsAreIntrusions(count, acquire, atomic, before);
      NextSection(After(count, acquire, atomic, before), acquire, atomic, moves[|moves| - 1]);
    }
  }
}
