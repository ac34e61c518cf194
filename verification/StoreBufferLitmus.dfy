/** The litmus itself: with a locked operation between the store and the load, no
    iteration of any run ends with both threads having read zero. */
module StoreBufferLitmus {
  import Bits
  import opened LitmusMachine
  import opened LitmusBarrier
  import opened LitmusResults

  /** The thread's flag is known to be up: it is past its fence, and the other
      thread has not made this iteration's load yet. */
  predicate Raised(th: Thread, other: Thread) {
    th.pc == Load || (th.pc == Fence && th.buffer == []) || Loads(th) > Loads(other)
  }

  /** Fence executions so far. */
  function Fenced(th: Thread): nat { Loads(th) + if th.pc == Load then 1 else 0 }

  /** What one thread, with the other in view, knows of memory. */
  predicate Facts(m: Memory, one: bool, th: Thread, other: Thread) {
    Raised(th, other) ==> Read(m, MyFlag(one)) == 1
  }

  /** Once both have made an iteration's load, they have not both read zero. */
  predicate NotBothZero(a: Thread, b: Thread) {
    Loads(a) == Loads(b) && Loads(a) > 0 ==> a.value != 0 || b.value != 0
  }

  predicate FencesCounted(th: Thread) { th.fences == Fenced(th) % WORD }

  predicate Safe(s: State) {
    && FencesCounted(s.zero) && FencesCounted(s.one)
    && Facts(s.mem, false, s.zero, s.one)
    && Facts(s.mem, true, s.one, s.zero)
    && NotBothZero(s.zero, s.one)
  }

  /** The mover's own facts after its instruction. */
  lemma ActOwnFacts(m: Memory, th: Thread, other: Thread, iters: nat, one: bool)
    requires ThreadOk(true, iters, one, th) && Crossing(m, th, other)
    requires Facts(m, one, th, other) && !Blocked(th, iters)
    ensures var e := Act(m, th, true, one); Facts(e.mem, one, e.th, other)
  {
    hide LeftOf, Outstanding, See;
  }

  lemma ActCountsFences(m: Memory, th: Thread, iters: nat, one: bool)
    requires ThreadOk(true, iters, one, th) && FencesCounted(th)
    ensures FencesCounted(Act(m, th, true, one).th)
  {
    hide ThreadOk, Fenced, See;
    Bits.WrapIncrement(Fenced(th), WORD);
    FencedMoves(m, th, iters, one);
  }

  lemma FencedMoves(m: Memory, th: Thread, iters: nat, one: bool)
    requires ThreadOk(true, iters, one, th)
    ensures Fenced(Act(m, th, true, one).th) == Fenced(th) + if th.pc == Fence then 1 else 0
  {
    hide LeftOf, Outstanding, See;
  }

  lemma FencesFrame(th: Thread, buffer: seq<Store>)
    ensures FencesCounted(th.(buffer := buffer)) == FencesCounted(th)
  {
  }

  /** The other thread's facts after it. */
  lemma ActOtherFacts(m: Memory, th: Thread, other: Thread, iters: nat, one: bool)
    requires ThreadOk(true, iters, one, th) && ThreadOk(true, iters, !one, other) && Crossing(m, th, other)
    requires Facts(m, !one, other, th) && !Blocked(th, iters)
    ensures var e := Act(m, th, true, one); Facts(e.mem, !one, other, e.th)
  {
    hide LeftOf, Outstanding, See;
  }

  /** The load is where it is decided: the second to load sees the first's flag. */
  lemma ActNotBothZero(m: Memory, th: Thread, other: Thread, iters: nat, one: bool)
    requires ThreadOk(true, iters, one, th) && ThreadOk(true, iters, !one, other) && Crossing(m, th, other)
    requires Facts(m, !one, other, th) && NotBothZero(th, other) && !Blocked(th, iters)
    ensures NotBothZero(Act(m, th, true, one).th, other)
  {
    hide LeftOf, Outstanding;
    if th.pc == Load {
      IdleBuffer(th, true, iters, one);
    }
  }

  /** What a draining store can be. */
  lemma OldestIs(th: Thread, iters: nat, one: bool)
    requires ThreadOk(true, iters, one, th) && th.buffer != []
    ensures var loc, value := th.buffer[0].loc, th.buffer[0].value;
            || (th.pc == Publish && loc == Count)
            || (th.pc == Fence && loc == MyFlag(one) && value == 1 && |th.buffer| == 1)
            || (th.pc == Enter && th.entered % 2 == 1 && loc == MyResult(one) && value == th.value && |th.buffer| == 1)
            || (!one && th.entered % 2 == 0 && (th.pc == Enter || th.pc == ClearY)
                && (loc == X || loc == Y) && value == 0)
  {
    hide LeftOf;
    DropLeft(th.buffer, Outstanding(true, one, th));
  }

  lemma FlushOwnFacts(m: Memory, th: Thread, other: Thread, iters: nat, one: bool)
    requires ThreadOk(true, iters, one, th) && ThreadOk(true, iters, !one, other) && Crossing(m, th, other)
    requires Facts(m, one, th, other) && th.buffer != []
    ensures Facts(Write(m, th.buffer[0]), one, th.(buffer := th.buffer[1..]), other)
  {
    hide LeftOf, Outstanding;
    OldestIs(th, iters, one);
  }

  lemma FlushOtherFacts(m: Memory, th: Thread, other: Thread, iters: nat, one: bool)
    requires ThreadOk(true, iters, one, th) && ThreadOk(true, iters, !one, other) && Crossing(m, th, other)
    requires Facts(m, !one, other, th) && th.buffer != []
    ensures Facts(Write(m, th.buffer[0]), !one, other, th.(buffer := th.buffer[1..]))
  {
    hide LeftOf, Outstanding;
    OldestIs(th, iters, one);
  }

  lemma NextKeepsSafe(s: State, iters: nat, move: Move)
    requires Inv(s, true, iters) && Safe(s)
    ensures Safe(Next(s, true, iters, move))
  {
    hide ThreadOk, Crossing, Act, Write, Blocked, Facts, NotBothZero, FencesCounted;
    var th, other := Get(s, move.one), Get(s, !move.one);
    CrossingSymmetric(s.mem, s.zero, s.one);
    NotBothSymmetric(s.zero, s.one);
    if move.Step? {
      if !Blocked(th, iters) {
        ActOwnFacts(s.mem, th, other, iters, move.one);
        ActOtherFacts(s.mem, th, other, iters, move.one);
        ActNotBothZero(s.mem, th, other, iters, move.one);
        ActCountsFences(s.mem, th, iters, move.one);
        NotBothSymmetric(Act(s.mem, th, true, move.one).th, other);
      }
    } else if th.buffer != [] {
      FlushOwnFacts(s.mem, th, other, iters, move.one);
      FlushOtherFacts(s.mem, th, other, iters, move.one);
      NotBothFrame(th, other, th.buffer[1..]);
      FencesFrame(th, th.buffer[1..]);
      NotBothSymmetric(th.(buffer := th.buffer[1..]), other);
    }
  }

  lemma NotBothSymmetric(a: Thread, b: Thread)
    ensures NotBothZero(a, b) == NotBothZero(b, a)
  {
  }

  lemma NotBothFrame(a: Thread, b: Thread, buffer: seq<Store>)
    ensures NotBothZero(a.(buffer := buffer), b) == NotBothZero(a, b)
  {
  }

  lemma {:induction false} RunKeepsSafe(iters: nat, moves: seq<Move>)
    ensures Safe(After(true, iters, moves))
    decreases |moves|
  {
    if moves != [] {
      hide Safe, Next;
      RunKeepsInv(true, iters, moves[..|moves| - 1]);
      RunKeepsSafe(iters, moves[..|moves| - 1]);
      NextKeepsSafe(After(true, iters, moves[..|moves| - 1]), iters, moves[|moves| - 1]);
    }
  }

  /** No iteration in which both loads were made has both returning zero. */
  ghost predicate NeverBoth(a: seq<int>, b: seq<int>) {
    forall i :: 0 <= i < |a| && i < |b| ==> a[i] != 0 || b[i] != 0
  }

  lemma LoadsApart(m: Memory, a: Thread, b: Thread)
    requires Crossing(m, a, b)
    ensures Loads(a) <= Loads(b) + 1
  {
  }

  lemma NeverBothGrows(s': State, a: seq<int>, b: seq<int>, c: seq<int>, d: seq<int>)
    requires NeverBoth(a, b) && |c| + |d| <= 1 && |a| <= |b| + 1 && |b| <= |a| + 1
    requires Remembers(s'.zero, a + c) && Remembers(s'.one, b + d) && NotBothZero(s'.zero, s'.one)
    ensures NeverBoth(a + c, b + d)
  {
    hide Loads;
  }

  lemma {:induction false} LoadsNeverBothZero(iters: nat, moves: seq<Move>)
    ensures NeverBoth(LoadsOf(true, iters, moves, false), LoadsOf(true, iters, moves, true))
    decreases |moves|
  {
    if moves != [] {
      hide Next, Crossing, ThreadOk, Remembers, NotBothZero, NeverBoth, Facts, FencesCounted;
      var before, m := moves[..|moves| - 1], moves[|moves| - 1];
      var s, s' := After(true, iters, before), After(true, iters, moves);
      LoadsNeverBothZero(iters, before);
      RunKeepsInv(true, iters, before);
      RunKeepsSafe(iters, moves);
      RunRemembers(true, iters, before, false);
      RunRemembers(true, iters, before, true);
      RunRemembers(true, iters, moves, false);
      RunRemembers(true, iters, moves, true);
      CrossingSymmetric(s.mem, s.zero, s.one);
      LoadsApart(s.mem, s.zero, s.one);
      LoadsApart(s.mem, s.one, s.zero);
      var a, b := LoadsOf(true, iters, before, false), LoadsOf(true, iters, before, true);
      RememberedLength(s.zero, a);
      RememberedLength(s.one, b);
      NeverBothGrows(s', a, b, LoadBy(s, m, false), LoadBy(s, m, true));
    }
  }

  lemma RememberedLength(th: Thread, loads: seq<int>)
    requires Remembers(th, loads)
    ensures |loads| == Loads(th)
  {
  }

  lemma {:induction false} NoneCounted(a: seq<int>, b: seq<int>, n: nat)
    requires NeverBoth(a, b) && n <= |a| && n <= |b|
    ensures BothZeroUpTo(a, b, n) == 0
  {
    if n > 0 {
      NoneCounted(a, b, n - 1);
    }
  }

  /** Across the locked operation no iteration of any run has both loads returning
      zero, so none is counted; and when both threads are through, each fence word
      counts the iterations. */
  lemma FencedNeverBothZero(iters: nat, moves: seq<Move>)
    ensures NeverBoth(LoadsOf(true, iters, moves, false), LoadsOf(true, iters, moves, true))
    ensures var s := After(true, iters, moves);
            && s.bothZero == 0
            && (Finished(s, iters) ==> s.zero.fences == iters % WORD && s.one.fences == iters % WORD)
  {
    hide After, LoadsOf;
    RunKeepsSafe(iters, moves);
    LoadsNeverBothZero(iters, moves);
    CountsBothZeroLoads(true, iters, moves);
    NoneCounted(LoadsOf(true, iters, moves, false), LoadsOf(true, iters, moves, true),
                Evaluated(After(true, iters, moves).zero));
  }

  /** Inside an iteration and the flag store has not reached memory. */
  predicate NotRaised(th: Thread) {
    th.entered % 2 == 1 && (InBarrier(th) || th.pc == Flag || (th.pc == Fence && th.buffer != []))
  }

  /** Which flags are known to be down: those thread zero has cleared, and those not
      raised yet in an iteration that thread zero has begun. */
  predicate FlagsDown(m: Memory, zero: Thread, one: Thread) {
    && (zero.pc == Enter && zero.entered % 2 == 0 && |zero.buffer| <= 1 ==> m.x == 0)
    && (zero.pc == Enter && zero.entered % 2 == 0 && zero.buffer == [] ==> m.y == 0)
    && (zero.pc == ClearY && zero.buffer == [] ==> m.x == 0)
    && (NotRaised(zero) ==> m.x == 0)
    && (NotRaised(one) && one.entered <= zero.entered ==> m.y == 0)
    && (one.entered % 2 == 0 && one.entered < zero.entered ==> m.y == 0)
  }

  lemma ActZeroKeepsDown(m: Memory, zero: Thread, one: Thread, iters: nat)
    requires ThreadOk(true, iters, false, zero) && ThreadOk(true, iters, true, one) && Crossing(m, zero, one)
    requires FlagsDown(m, zero, one) && !Blocked(zero, iters)
    ensures var e := Act(m, zero, true, false); FlagsDown(e.mem, e.th, one)
  {
    if zero.pc == Enter || InBarrier(zero) {
      ActZeroInBarrier(m, zero, one, iters);
    } else {
      ActZeroInBody(m, zero, one, iters);
    }
  }

  lemma ActZeroInBarrier(m: Memory, zero: Thread, one: Thread, iters: nat)
    requires ThreadOk(true, iters, false, zero) && ThreadOk(true, iters, true, one) && Crossing(m, zero, one)
    requires FlagsDown(m, zero, one) && !Blocked(zero, iters) && (zero.pc == Enter || InBarrier(zero))
    ensures var e := Act(m, zero, true, false); FlagsDown(e.mem, e.th, one)
  {
    hide LeftOf, Outstanding, See;
  }

  lemma ActZeroInBody(m: Memory, zero: Thread, one: Thread, iters: nat)
    requires ThreadOk(true, iters, false, zero) && ThreadOk(true, iters, true, one)
    requires FlagsDown(m, zero, one) && !Blocked(zero, iters) && zero.pc != Enter && !InBarrier(zero)
    ensures var e := Act(m, zero, true, false); FlagsDown(e.mem, e.th, one)
  {
    hide LeftOf, Outstanding, See;
    if zero.pc == ClearY {
      ClearYBuffer(zero, iters);
    }
  }

  lemma ClearYBuffer(zero: Thread, iters: nat)
    requires ThreadOk(true, iters, false, zero) && zero.pc == ClearY
    ensures |zero.buffer| <= 1
  {
  }

  lemma ActOneKeepsDown(m: Memory, zero: Thread, one: Thread, iters: nat)
    requires ThreadOk(true, iters, false, zero) && ThreadOk(true, iters, true, one) && Crossing(m, zero, one)
    requires FlagsDown(m, zero, one) && !Blocked(one, iters)
    ensures var e := Act(m, one, true, true); FlagsDown(e.mem, zero, e.th)
  {
    hide LeftOf, Outstanding, See;
  }

  /** Thread zero's clears drain in order. */
  lemma ClearOrder(zero: Thread, iters: nat)
    requires ThreadOk(true, iters, false, zero) && zero.entered % 2 == 0 && zero.buffer != []
    ensures zero.pc == Enter && |zero.buffer| == 2 ==> zero.buffer[0] == Store(X, 0)
    ensures zero.pc == Enter && |zero.buffer| == 1 ==> zero.buffer[0] == Store(Y, 0)
    ensures zero.pc == ClearY ==> zero.buffer[0] == Store(X, 0)
    ensures |zero.buffer| <= 2
  {
    hide LeftOf;
    DropLeft(zero.buffer, Outstanding(true, false, zero));
  }

  lemma FlushZeroKeepsDown(m: Memory, zero: Thread, one: Thread, iters: nat)
    requires ThreadOk(true, iters, false, zero) && ThreadOk(true, iters, true, one) && Crossing(m, zero, one)
    requires FlagsDown(m, zero, one) && zero.buffer != []
    ensures FlagsDown(Write(m, zero.buffer[0]), zero.(buffer := zero.buffer[1..]), one)
  {
    hide LeftOf, Outstanding;
    OldestIs(zero, iters, false);
    if zero.entered % 2 == 0 {
      ClearOrder(zero, iters);
    }
  }

  lemma FlushOneKeepsDown(m: Memory, zero: Thread, one: Thread, iters: nat)
    requires ThreadOk(true, iters, false, zero) && ThreadOk(true, iters, true, one) && Crossing(m, zero, one)
    requires FlagsDown(m, zero, one) && one.buffer != []
    ensures FlagsDown(Write(m, one.buffer[0]), zero, one.(buffer := one.buffer[1..]))
  {
    hide LeftOf, Outstanding;
    OldestIs(one, iters, true);
  }

  lemma {:induction false} RunKeepsDown(iters: nat, moves: seq<Move>)
    ensures var s := After(true, iters, moves); FlagsDown(s.mem, s.zero, s.one)
    decreases |moves|
  {
    hide FlagsDown, Act, Write, Crossing, ThreadOk, Blocked;
    if moves == [] {
      InitDown();
    } else {
      var s, m := After(true, iters, moves[..|moves| - 1]), moves[|moves| - 1];
      RunKeepsDown(iters, moves[..|moves| - 1]);
      RunKeepsInv(true, iters, moves[..|moves| - 1]);
      if m == Step(false) && !Blocked(s.zero, iters) {
        ActZeroKeepsDown(s.mem, s.zero, s.one, iters);
      } else if m == Step(true) && !Blocked(s.one, iters) {
        ActOneKeepsDown(s.mem, s.zero, s.one, iters);
      } else if m == Drain(false) && s.zero.buffer != [] {
        FlushZeroKeepsDown(s.mem, s.zero, s.one, iters);
      } else if m == Drain(true) && s.one.buffer != [] {
        FlushOneKeepsDown(s.mem, s.zero, s.one, iters);
      }
    }
  }

  lemma InitDown()
    ensures FlagsDown(Init().mem, Init().zero, Init().one)
  {
  }

  /** Each iteration starts afresh: in every run a thread about to raise its flag
      finds it down in memory, thread zero's reset having reached memory before the
      crossing that let the thread in. */
  lemma FlagsStartDown(iters: nat, moves: seq<Move>, one: bool)
    requires Get(After(true, iters, moves), one).pc == Flag
    ensures Read(After(true, iters, moves).mem, MyFlag(one)) == 0
  {
    hide After, LeftOf, Outstanding;
    RunKeepsDown(iters, moves);
    RunKeepsInv(true, iters, moves);
  }
}
