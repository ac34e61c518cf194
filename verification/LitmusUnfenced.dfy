/** The calibration arm: without the locked operation any number of iterations can
    have both threads read zero, so the fenced result owes nothing to the barrier. */
module LitmusUnfenced {
  import opened LitmusMachine
  import opened LitmusBarrier

  /** A thread of the arm without fences. */
  function At(pc: Pc, entered: nat, value: int, buffer: seq<Store>): Thread {
    Thread(pc, entered % 2, entered, value, 0, buffer)
  }

  lemma Then(iters: nat, moves: seq<Move>, m: Move) returns (more: seq<Move>)
    ensures After(false, iters, more) == Next(After(false, iters, moves), false, iters, m)
  {
    more := moves + [m];
    assert more[..|more| - 1] == moves;
  }

  /** Both threads arrive at a crossing, thread one second, and leave it. */
  lemma Cross(iters: nat, moves: seq<Move>, m: Memory, n: nat, v: int, w: int, k: nat) returns (more: seq<Move>)
    requires m.count == 0 && m.sense == n % 2 && n < 2 * iters
    requires After(false, iters, moves) == State(m, At(Enter, n, v, []), At(Enter, n, w, []), k)
    ensures After(false, iters, more)
            == State(m.(sense := (n + 1) % 2),
                     At(Leave(false, n + 1), n + 1, v, []), At(Leave(true, n + 1), n + 1, w, []), k)
  {
    hide After;
    more := Then(iters, moves, Step(false));
    assert After(false, iters, more) == State(m.(count := 1), At(Spin, n + 1, v, []), At(Enter, n, w, []), k);
    more := Then(iters, more, Step(true));
    assert After(false, iters, more) == State(m.(count := 2), At(Spin, n + 1, v, []), At(Reset, n + 1, w, []), k);
    more := Then(iters, more, Step(true));
    assert After(false, iters, more)
        == State(m.(count := 2), At(Spin, n + 1, v, []), At(Publish, n + 1, w, [Store(Count, 0)]), k);
    more := Then(iters, more, Drain(true));
    assert After(false, iters, more) == State(m, At(Spin, n + 1, v, []), At(Publish, n + 1, w, []), k);
    more := Then(iters, more, Step(true));
    more := Then(iters, more, Step(false));
  }

  lemma SeePast(m: Memory, st: Store, loc: Loc)
    requires st.loc != loc
    ensures See(m, [st], loc) == Read(m, loc)
  {
    assert [st][..0] == [];
  }

  /** One thread raises its flag and makes its load before the flag reaches memory. */
  lemma LoadEarly(iters: nat, moves: seq<Move>, s: State, one: bool, n: nat, v: int) returns (more: seq<Move>)
    requires After(false, iters, moves) == s && Get(s, one) == At(Flag, n, v, [])
    ensures var seen := Read(s.mem, MyFlag(!one));
            After(false, iters, more)
            == Put(s, one, At(Enter, n, seen, [Store(MyFlag(one), 1), Store(MyResult(one), seen)]))
  {
    hide After;
    var flag := Store(MyFlag(one), 1);
    more := Then(iters, moves, Step(one));
    assert [] + [flag] == [flag];
    assert After(false, iters, more) == Put(s, one, At(Load, n, v, [flag]));
    more := Then(iters, more, Step(one));
    SeePast(s.mem, flag, MyFlag(!one));
    var seen := Read(s.mem, MyFlag(!one));
    assert After(false, iters, more) == Put(s, one, At(Result, n, seen, [flag]));
    more := Then(iters, more, Step(one));
    assert [flag] + [Store(MyResult(one), seen)] == [flag, Store(MyResult(one), seen)];
  }

  lemma DrainTwo(iters: nat, moves: seq<Move>, s: State, one: bool, first: Store, second: Store)
    returns (more: seq<Move>)
    requires After(false, iters, moves) == s && Get(s, one).buffer == [first, second]
    ensures After(false, iters, more)
            == Put(s.(mem := Write(Write(s.mem, first), second)), one, Get(s, one).(buffer := []))
  {
    hide After;
    more := Then(iters, moves, Drain(one));
    assert [first, second][1..] == [second];
    assert After(false, iters, more) == Put(s.(mem := Write(s.mem, first)), one, Get(s, one).(buffer := [second]));
    more := Then(iters, more, Drain(one));
    assert [second][1..] == [];
  }

  /** The litmus step of both threads. Either both loads overtake both stores, or
      thread zero's stores reach memory before thread one starts. */
  lemma Body(iters: nat, moves: seq<Move>, m: Memory, n: nat, v: int, w: int, k: nat, early: bool)
    returns (more: seq<Move>)
    requires m.x == 0 && m.y == 0
    requires After(false, iters, moves) == State(m, At(Flag, n, v, []), At(Flag, n, w, []), k)
    ensures var seen := if early then 0 else 1;
            After(false, iters, more)
            == State(m.(x := 1, y := 1, r0 := 0, r1 := seen), At(Enter, n, 0, []), At(Enter, n, seen, []), k)
  {
    hide After, Next;
    more := LoadEarly(iters, moves, After(false, iters, moves), false, n, v);
    if early {
      more := LoadEarly(iters, more, After(false, iters, more), true, n, w);
      more := DrainTwo(iters, more, After(false, iters, more), false, Store(X, 1), Store(R0, 0));
      more := DrainTwo(iters, more, After(false, iters, more), true, Store(Y, 1), Store(R1, 0));
    } else {
      more := DrainTwo(iters, more, After(false, iters, more), false, Store(X, 1), Store(R0, 0));
      more := LoadEarly(iters, more, After(false, iters, more), true, n, w);
      more := DrainTwo(iters, more, After(false, iters, more), true, Store(Y, 1), Store(R1, 1));
    }
  }

  /** Thread zero evaluates, counting if the other result is zero too, and clears. */
  lemma Evaluate(iters: nat, moves: seq<Move>, m: Memory, n: nat, w: int, k: nat) returns (more: seq<Move>)
    requires m.r0 == 0
    requires After(false, iters, moves) == State(m, At(Own, n, 0, []), At(Enter, n, w, []), k)
    ensures After(false, iters, more)
            == State(m.(x := 0, y := 0), At(Enter, n, 0, []), At(Enter, n, w, []), k + if m.r1 == 0 then 1 else 0)
  {
    hide After;
    var k' := k + if m.r1 == 0 then 1 else 0;
    more := Then(iters, moves, Step(false));
    assert After(false, iters, more) == State(m, At(Peer, n, 0, []), At(Enter, n, w, []), k);
    more := Then(iters, more, Step(false));
    assert After(false, iters, more) == State(m, At(ClearX, n, 0, []), At(Enter, n, w, []), k');
    more := Then(iters, more, Step(false));
    assert After(false, iters, more) == State(m, At(ClearY, n, 0, [Store(X, 0)]), At(Enter, n, w, []), k');
    more := Then(iters, more, Step(false));
    assert [Store(X, 0)] + [Store(Y, 0)] == [Store(X, 0), Store(Y, 0)];
    assert After(false, iters, more)
        == State(m, At(Enter, n, 0, [Store(X, 0), Store(Y, 0)]), At(Enter, n, w, []), k');
    more := DrainTwo(iters, more, After(false, iters, more), false, Store(X, 0), Store(Y, 0));
  }

  /** Between iterations: i of them done, k counted. */
  ghost predicate Between(s: State, i: nat, k: nat) {
    && s.mem.x == 0 && s.mem.y == 0 && s.mem.count == 0 && s.mem.sense == 0
    && s == State(s.mem, At(Enter, 2 * i, s.zero.value, []), At(Enter, 2 * i, s.one.value, []), k)
  }

  lemma Iteration(iters: nat, moves: seq<Move>, i: nat, k: nat, early: bool) returns (more: seq<Move>)
    requires i < iters && Between(After(false, iters, moves), i, k)
    ensures Between(After(false, iters, more), i + 1, k + if early then 1 else 0)
  {
    hide After, Next;
    var m, n := After(false, iters, moves).mem, 2 * i;
    var v, w := After(false, iters, moves).zero.value, After(false, iters, moves).one.value;
    var seen := if early then 0 else 1;
    more := Cross(iters, moves, m, n, v, w, k);
    var m1 := m.(sense := 1);
    more := Body(iters, more, m1, n + 1, v, w, k, early);
    var m2 := m1.(x := 1, y := 1, r0 := 0, r1 := seen);
    more := Cross(iters, more, m2, n + 1, 0, seen, k);
    more := Evaluate(iters, more, m2.(sense := 0), n + 2, seen, k);
  }

  lemma {:induction false} Iterations(iters: nat, i: nat, n: nat) returns (moves: seq<Move>)
    requires n <= i <= iters
    ensures Between(After(false, iters, moves), i, n)
    decreases i
  {
    if i == 0 {
      moves := [];
    } else {
      hide After, Between;
      moves := Iterations(iters, i - 1, if n == i then n - 1 else n);
      moves := Iteration(iters, moves, i - 1, if n == i then n - 1 else n, n == i);
    }
  }

  /** Without the fence, for every n up to the number of iterations some run to the
      end counts exactly n iterations with both results zero. */
  lemma UnfencedCanReadBothZero(iters: nat, n: nat)
    requires n <= iters
    ensures exists moves :: Finished(After(false, iters, moves), iters) && After(false, iters, moves).bothZero == n
  {
    hide After;
    var moves := Iterations(iters, iters, n);
    assert Finished(After(false, iters, moves), iters) && After(false, iters, moves).bothZero == n;
  }
}
