/** What thread zero evaluates, with or without the fence: in every run, the results
    it finds are the values the two threads loaded in that iteration, and its count
    is the number of evaluated iterations in which both loads returned zero. */
module LitmusResults {
  import opened LitmusMachine
  import opened LitmusBarrier

  /** Litmus loads a thread has made. */
  function Loads(th: Thread): nat {
    if th.entered % 2 == 1 && (th.pc == Result || th.pc == Enter) then (th.entered + 1) / 2 else th.entered / 2
  }

  /** The thread's last value has reached its result word. */
  predicate Stored(th: Thread) {
    Loads(th) > 0 && th.pc != Result && (th.pc == Enter && th.entered % 2 == 1 ==> th.buffer == [])
  }

  predicate ResultOk(m: Memory, one: bool, th: Thread) {
    && (Stored(th) ==> Read(m, MyResult(one)) == th.value)
    && (th.pc == Peer ==> th.value == 0)
  }

  predicate Results(s: State) { ResultOk(s.mem, false, s.zero) && ResultOk(s.mem, true, s.one) }

  lemma ActKeepsResult(m: Memory, th: Thread, fenced: bool, iters: nat, one: bool)
    requires ThreadOk(fenced, iters, one, th) && !Blocked(th, iters) && ResultOk(m, one, th)
    ensures var e := Act(m, th, fenced, one); ResultOk(e.mem, one, e.th)
  {
    hide LeftOf, Outstanding;
    if th.pc == Own {
      IdleBuffer(th, fenced, iters, one);
    }
  }

  lemma ActKeepsOthersResult(m: Memory, th: Thread, fenced: bool, one: bool, other: Thread)
    requires ResultOk(m, !one, other)
    ensures ResultOk(Act(m, th, fenced, one).mem, !one, other)
  {
    hide See;
  }

  /** The only result a buffer holds is the thread's own last value, newest. */
  lemma OldestResult(th: Thread, fenced: bool, iters: nat, one: bool)
    requires ThreadOk(fenced, iters, one, th) && th.buffer != []
    ensures th.buffer[0].loc != MyResult(!one)
    ensures th.buffer[0].loc == MyResult(one) ==>
      th.pc == Enter && th.entered % 2 == 1 && th.buffer[0].value == th.value
    ensures th.pc == Enter && th.entered % 2 == 1 && |th.buffer| == 1 ==> th.buffer[0] == Store(MyResult(one), th.value)
  {
    hide LeftOf;
    DropLeft(th.buffer, Outstanding(fenced, one, th));
  }

  lemma FlushKeepsResults(m: Memory, th: Thread, fenced: bool, iters: nat, one: bool, other: Thread)
    requires ThreadOk(fenced, iters, one, th) && th.buffer != []
    requires ResultOk(m, one, th) && ResultOk(m, !one, other)
    ensures ResultOk(Write(m, th.buffer[0]), one, th.(buffer := th.buffer[1..]))
    ensures ResultOk(Write(m, th.buffer[0]), !one, other)
  {
    hide ThreadOk;
    OldestResult(th, fenced, iters, one);
  }

  lemma NextKeepsResults(s: State, fenced: bool, iters: nat, move: Move)
    requires Inv(s, fenced, iters) && Results(s)
    ensures Results(Next(s, fenced, iters, move))
  {
    hide ThreadOk, Crossing, Act, Write, Blocked, ResultOk;
    var th, other := Get(s, move.one), Get(s, !move.one);
    if move.Step? {
      if !Blocked(th, iters) {
        ActKeepsResult(s.mem, th, fenced, iters, move.one);
        ActKeepsOthersResult(s.mem, th, fenced, move.one, other);
      }
    } else if th.buffer != [] {
      FlushKeepsResults(s.mem, th, fenced, iters, move.one, other);
    }
  }

  lemma {:induction false} RunKeepsResults(fenced: bool, iters: nat, moves: seq<Move>)
    ensures Results(After(fenced, iters, moves))
    decreases |moves|
  {
    if moves != [] {
      hide Results, Next;
      RunKeepsInv(fenced, iters, moves[..|moves| - 1]);
      RunKeepsResults(fenced, iters, moves[..|moves| - 1]);
      NextKeepsResults(After(fenced, iters, moves[..|moves| - 1]), fenced, iters, moves[|moves| - 1]);
    }
  }

  /** At the start of its evaluation thread zero finds in both result words what the
      two threads loaded in this iteration. */
  lemma EvaluatesTheLoads(fenced: bool, iters: nat, moves: seq<Move>)
    requires After(fenced, iters, moves).zero.pc == Own
    ensures var s := After(fenced, iters, moves);
            && Loads(s.zero) == Loads(s.one) == s.zero.entered / 2 > 0
            && s.zero.buffer == []
            && s.mem.r0 == s.zero.value && s.mem.r1 == s.one.value
  {
    hide After, LeftOf, Outstanding;
    RunKeepsInv(fenced, iters, moves);
    RunKeepsResults(fenced, iters, moves);
    IdleBuffer(After(fenced, iters, moves).zero, fenced, iters, false);
  }

  // ----- the history of loads

  /** The values a thread's litmus loads have returned in a run, in order. */
  function LoadsOf(fenced: bool, iters: nat, moves: seq<Move>, one: bool): seq<int>
    decreases |moves|
  {
    if moves == [] then []
    else
      var before := moves[..|moves| - 1];
      LoadsOf(fenced, iters, before, one) + LoadBy(After(fenced, iters, before), moves[|moves| - 1], one)
  }

  /** What the thread loads in this move, if it is its litmus load. */
  function LoadBy(s: State, m: Move, one: bool): seq<int> {
    var th := Get(s, one);
    if m == Step(one) && th.pc == Load then [See(s.mem, th.buffer, MyFlag(!one))] else []
  }

  /** In how many of the first n iterations both loads returned zero. */
  function BothZeroUpTo(a: seq<int>, b: seq<int>, n: nat): nat
    requires n <= |a| && n <= |b|
  {
    if n == 0 then 0 else BothZeroUpTo(a, b, n - 1) + if a[n - 1] == 0 && b[n - 1] == 0 then 1 else 0
  }

  /** Iterations thread zero has evaluated. */
  function Evaluated(zero: Thread): nat {
    if zero.entered % 2 == 0 && zero.entered > 0 && (zero.pc == Own || zero.pc == Peer || InBarrier(zero))
    then zero.entered / 2 - 1 else zero.entered / 2
  }

  /** The history is as long as the thread has made loads, and ends with its value. */
  predicate Remembers(th: Thread, loads: seq<int>) {
    |loads| == Loads(th) && (loads != [] ==> loads[|loads| - 1] == th.value)
  }

  lemma ActRemembers(m: Memory, th: Thread, fenced: bool, iters: nat, one: bool, loads: seq<int>)
    requires ThreadOk(fenced, iters, one, th) && !Blocked(th, iters) && Remembers(th, loads)
    ensures Remembers(Act(m, th, fenced, one).th,
                      loads + if th.pc == Load then [See(m, th.buffer, MyFlag(!one))] else [])
  {
    hide LeftOf, Outstanding, See;
  }

  lemma NextRemembers(s: State, fenced: bool, iters: nat, m: Move, one: bool, loads: seq<int>)
    requires Inv(s, fenced, iters) && Remembers(Get(s, one), loads)
    ensures Remembers(Get(Next(s, fenced, iters, m), one), loads + LoadBy(s, m, one))
  {
    hide Act, ThreadOk, Crossing, Remembers, See, Write, Blocked;
    var th := Get(s, one);
    assert loads + [] == loads;
    NotBlockedAtLoad(th, iters);
    if m == Step(one) && !Blocked(th, iters) {
      ActRemembers(s.mem, th, fenced, iters, one, loads);
    }
    if m == Drain(one) && th.buffer != [] {
      RemembersFrame(th, th.buffer[1..], loads);
    }
  }

  lemma {:induction false} RunRemembers(fenced: bool, iters: nat, moves: seq<Move>, one: bool)
    ensures Remembers(Get(After(fenced, iters, moves), one), LoadsOf(fenced, iters, moves, one))
    decreases |moves|
  {
    if moves != [] {
      hide Next, Inv, Remembers, LoadBy, Get;
      var before := moves[..|moves| - 1];
      RunRemembers(fenced, iters, before, one);
      RunKeepsInv(fenced, iters, before);
      var last, seen := moves[|moves| - 1], LoadsOf(fenced, iters, before, one);
      NextRemembers(After(fenced, iters, before), fenced, iters, last, one, seen);
    }
  }

  lemma NotBlockedAtLoad(th: Thread, iters: nat)
    ensures th.pc == Load ==> !Blocked(th, iters)
  {
  }

  lemma RemembersFrame(th: Thread, buffer: seq<Store>, loads: seq<int>)
    ensures Remembers(th.(buffer := buffer), loads) == Remembers(th, loads)
  {
  }

  // ----- the count

  lemma {:induction false} BothZeroFrame(a: seq<int>, b: seq<int>, c: seq<int>, d: seq<int>, n: nat)
    requires n <= |a| && n <= |b|
    ensures BothZeroUpTo(a + c, b + d, n) == BothZeroUpTo(a, b, n)
  {
    if n > 0 {
      BothZeroFrame(a, b, c, d, n - 1);
    }
  }

  /** A thread that has evaluated n iterations leaves both histories at least that long. */
  lemma EvaluatedAreLoaded(m: Memory, zero: Thread, one: Thread, fenced: bool, iters: nat)
    requires ThreadOk(fenced, iters, false, zero) && Crossing(m, zero, one)
    ensures Evaluated(zero) <= Loads(zero) && Evaluated(zero) <= Loads(one)
    ensures zero.pc == Own || zero.pc == Peer ==> Loads(zero) == Loads(one) == Evaluated(zero) + 1
  {
    hide LeftOf, Outstanding;
  }

  /** How the count and the evaluated iterations move: only when an evaluation ends,
      and then the count grows exactly if both results are zero. */
  lemma ActEvaluates(m: Memory, zero: Thread, one: Thread, fenced: bool, iters: nat)
    requires ThreadOk(fenced, iters, false, zero) && ThreadOk(fenced, iters, true, one) && Crossing(m, zero, one)
    requires !Blocked(zero, iters) && ResultOk(m, false, zero) && ResultOk(m, true, one)
    ensures var e := Act(m, zero, fenced, false);
            var ends := (zero.pc == Own && zero.value != 0) || zero.pc == Peer;
            && Evaluated(e.th) == Evaluated(zero) + (if ends then 1 else 0)
            && (e.violation <==> ends && zero.value == 0 && one.value == 0)
  {
    hide LeftOf, Outstanding;
    if zero.pc == Own || zero.pc == Peer {
      IdleBuffer(zero, fenced, iters, false);
    }
  }

  lemma OneNeverViolates(m: Memory, one: Thread, fenced: bool, iters: nat)
    requires ThreadOk(fenced, iters, true, one)
    ensures !Act(m, one, fenced, true).violation
  {
    hide See;
  }

  lemma EvaluatedFrame(zero: Thread, buffer: seq<Store>)
    ensures Evaluated(zero.(buffer := buffer)) == Evaluated(zero)
  {
  }

  predicate Counted(s: State, a: seq<int>, b: seq<int>) {
    && Evaluated(s.zero) <= |a| && Evaluated(s.zero) <= |b|
    && s.bothZero == BothZeroUpTo(a, b, Evaluated(s.zero))
  }

  lemma StepZeroCounts(s: State, fenced: bool, iters: nat, a: seq<int>, b: seq<int>)
    requires Inv(s, fenced, iters) && Results(s) && !Blocked(s.zero, iters)
    requires Remembers(s.zero, a) && Remembers(s.one, b) && Counted(s, a, b)
    ensures Counted(Next(s, fenced, iters, Step(false)), a, b)
  {
    hide Act, ThreadOk, Crossing, Blocked, ResultOk;
    EvaluatedAreLoaded(s.mem, s.zero, s.one, fenced, iters);
    ActEvaluates(s.mem, s.zero, s.one, fenced, iters);
  }

  lemma NextCounts(s: State, fenced: bool, iters: nat, m: Move, a: seq<int>, b: seq<int>)
    requires Inv(s, fenced, iters) && Results(s)
    requires Remembers(s.zero, a) && Remembers(s.one, b) && Counted(s, a, b)
    ensures Counted(Next(s, fenced, iters, m), a, b)
  {
    hide Act, ThreadOk, Crossing, Blocked, ResultOk, Write, Remembers, Evaluated;
    if m == Step(false) && !Blocked(s.zero, iters) {
      StepZeroCounts(s, fenced, iters, a, b);
    } else if m == Step(true) && !Blocked(s.one, iters) {
      OneNeverViolates(s.mem, s.one, fenced, iters);
    } else if m == Drain(false) && s.zero.buffer != [] {
      EvaluatedFrame(s.zero, s.zero.buffer[1..]);
    }
  }

  lemma CountedFrame(s: State, a: seq<int>, b: seq<int>, c: seq<int>, d: seq<int>)
    requires Counted(s, a, b)
    ensures Counted(s, a + c, b + d)
  {
    BothZeroFrame(a, b, c, d, Evaluated(s.zero));
  }

  /** In every run, with or without the fence, the count is the number of evaluated
      iterations in which both threads' loads returned zero. */
  lemma {:induction false} CountsBothZeroLoads(fenced: bool, iters: nat, moves: seq<Move>)
    ensures var zeros, ones := LoadsOf(fenced, iters, moves, false), LoadsOf(fenced, iters, moves, true);
            Counted(After(fenced, iters, moves), zeros, ones)
    decreases |moves|
  {
    if moves != [] {
      hide Next, Inv, Results, Remembers, LoadBy, Counted;
      var before, m := moves[..|moves| - 1], moves[|moves| - 1];
      var s := After(fenced, iters, before);
      var a, b := LoadsOf(fenced, iters, before, false), LoadsOf(fenced, iters, before, true);
      CountsBothZeroLoads(fenced, iters, before);
      RunKeepsInv(fenced, iters, before);
      RunKeepsResults(fenced, iters, before);
      RunRemembers(fenced, iters, before, false);
      RunRemembers(fenced, iters, before, true);
      NextCounts(s, fenced, iters, m, a, b);
      CountedFrame(Next(s, fenced, iters, m), a, b, LoadBy(s, m, false), LoadBy(s, m, true));
    }
  }

  /** At the end every iteration has been evaluated. */
  lemma FinalCount(fenced: bool, iters: nat, moves: seq<Move>)
    requires Finished(After(fenced, iters, moves), iters)
    ensures var a, b := LoadsOf(fenced, iters, moves, false), LoadsOf(fenced, iters, moves, true);
            |a| == |b| == iters && After(fenced, iters, moves).bothZero == BothZeroUpTo(a, b, iters)
  {
    hide After, LoadsOf;
    RunRemembers(fenced, iters, moves, false);
    RunRemembers(fenced, iters, moves, true);
    CountsBothZeroLoads(fenced, iters, moves);
  }
}
