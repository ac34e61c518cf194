/** The sense-reversing barrier of the litmus, over store buffers: it separates the
    crossings of the two threads and never hangs. */
module LitmusBarrier {
  import opened LitmusMachine

  /** b is what is left of `all` when some of its oldest stores have drained. */
  predicate LeftOf(b: seq<Store>, all: seq<Store>) {
    |b| <= |all| && b == all[|all| - |b|..]
  }

  /** The stores a thread may have outstanding at its program counter. */
  function Outstanding(fenced: bool, one: bool, th: Thread): seq<Store> {
    var flag := if fenced then [] else [Store(MyFlag(one), 1)];
    match th.pc
    case Enter =>
      if th.entered % 2 == 1 then flag + [Store(MyResult(one), th.value)]
      else if one then [] else [Store(X, 0), Store(Y, 0)]
    case Publish => [Store(Count, 0)]
    case Fence => [Store(MyFlag(one), 1)]
    case Load => flag
    case Result => flag
    case ClearY => [Store(X, 0)]
    case _ => []
  }

  /** What holds of one thread by itself. */
  predicate ThreadOk(fenced: bool, iters: nat, one: bool, th: Thread) {
    && LeftOf(th.buffer, Outstanding(fenced, one, th))
    && th.sense == th.entered % 2
    && th.entered <= 2 * iters
    && (th.pc == Flag || th.pc == Fence || th.pc == Load || th.pc == Result ==> th.entered % 2 == 1)
    && (th.pc == Fence ==> fenced)
    && (th.pc == Own || th.pc == Peer || th.pc == ClearX || th.pc == ClearY ==> !one && th.entered % 2 == 0)
    && (th.pc == Enter || th.entered > 0)
  }

  predicate Closing(th: Thread) { th.pc == Reset || th.pc == Publish }

  /** Nobody is closing a crossing: the counter is how far apart the threads are,
      the sense is that of the last completed crossing, and a thread that is ahead
      waits. */
  predicate Settled(m: Memory, a: Thread, b: Thread) {
    && !Closing(a) && !Closing(b)
    && m.count == (if a.entered == b.entered then 0 else 1)
    && m.sense == (if a.entered < b.entered then a.entered else b.entered) % 2
    && (a.entered > b.entered ==> a.entered == b.entered + 1 && a.pc == Spin)
    && (b.entered > a.entered ==> b.entered == a.entered + 1 && b.pc == Spin)
  }

  /** The second arrival is closing the crossing while the first waits. */
  predicate ClosedBy(m: Memory, a: Thread, b: Thread) {
    && Closing(a) && b.pc == Spin && a.entered == b.entered
    && m.sense == 1 - a.entered % 2
    && m.count == if a.pc == Publish && a.buffer == [] then 0 else 2
  }

  predicate Crossing(m: Memory, a: Thread, b: Thread) {
    Settled(m, a, b) || ClosedBy(m, a, b) || ClosedBy(m, b, a)
  }

  predicate Inv(s: State, fenced: bool, iters: nat) {
    ThreadOk(fenced, iters, false, s.zero) && ThreadOk(fenced, iters, true, s.one) && Crossing(s.mem, s.zero, s.one)
  }

  lemma PushLeft(b: seq<Store>, all: seq<Store>, st: Store)
    requires LeftOf(b, all)
    ensures LeftOf(b + [st], all + [st])
  {
  }

  lemma DropLeft(b: seq<Store>, all: seq<Store>)
    requires LeftOf(b, all) && b != []
    ensures LeftOf(b[1..], all) && |b| <= |all| && b[0] == all[|all| - |b|]
  {
  }

  lemma EmptyLeft()
    ensures forall all :: LeftOf([], all)
    ensures forall b :: LeftOf(b, []) ==> b == []
  {
  }

  /** Buffering the store and going to pc adds it to what may be outstanding. */
  predicate Expected(fenced: bool, one: bool, th: Thread, st: Store, pc: Pc) {
    Outstanding(fenced, one, Push(th, st.loc, st.value, pc)) == Outstanding(fenced, one, th) + [st]
  }

  /** Each store an instruction buffers is the next one expected at its new place. */
  lemma PushExpected(fenced: bool, one: bool, th: Thread)
    ensures th.pc == Reset ==> Expected(fenced, one, th, Store(Count, 0), Publish)
    ensures th.pc == Flag ==> Expected(fenced, one, th, Store(MyFlag(one), 1), if fenced then Fence else Load)
    ensures th.pc == Result && th.entered % 2 == 1 ==>
              Expected(fenced, one, th, Store(MyResult(one), th.value), Enter)
    ensures th.pc == ClearX ==> Expected(fenced, one, th, Store(X, 0), ClearY)
    ensures th.pc == ClearY && !one && th.entered % 2 == 0 ==> Expected(fenced, one, th, Store(Y, 0), Enter)
  {
  }

  predicate Pushes(pc: Pc) { pc == Reset || pc == Flag || pc == Result || pc == ClearX || pc == ClearY }

  lemma PushKeepsOwn(m: Memory, th: Thread, fenced: bool, iters: nat, one: bool)
    requires ThreadOk(fenced, iters, one, th) && Pushes(th.pc)
    ensures ThreadOk(fenced, iters, one, Act(m, th, fenced, one).th)
  {
    hide LeftOf, Outstanding, See;
    PushExpected(fenced, one, th);
    var e := Act(m, th, fenced, one);
    PushLeft(th.buffer, Outstanding(fenced, one, th), e.th.buffer[|th.buffer|]);
  }

  /** A thread whose program counter expects no stores has an empty buffer. */
  lemma IdleBuffer(th: Thread, fenced: bool, iters: nat, one: bool)
    requires ThreadOk(fenced, iters, one, th)
    requires th.pc == Spin || th.pc == Own || th.pc == Peer || ((th.pc == Load || th.pc == Result) && fenced)
    ensures th.buffer == []
  {
    hide LeftOf;
    EmptyLeft();
    assert Outstanding(fenced, one, th) == [];
  }

  lemma PlainKeepsOwn(m: Memory, th: Thread, fenced: bool, iters: nat, one: bool)
    requires ThreadOk(fenced, iters, one, th) && !Pushes(th.pc) && !Blocked(th, iters)
    ensures ThreadOk(fenced, iters, one, Act(m, th, fenced, one).th)
  {
    hide LeftOf, See;
    EmptyLeft();
    if th.pc == Spin || th.pc == Own || th.pc == Peer {
      IdleBuffer(th, fenced, iters, one);
    }
  }

  /** Inside the barrier. */
  lemma BarrierKeepsCrossing(m: Memory, th: Thread, other: Thread, fenced: bool, iters: nat, one: bool)
    requires ThreadOk(fenced, iters, one, th) && Crossing(m, th, other) && !Blocked(th, iters)
    requires th.pc == Enter || th.pc == Publish || th.pc == Spin || th.pc == Reset
    ensures var e := Act(m, th, fenced, one); Crossing(e.mem, e.th, other)
  {
    hide LeftOf, Outstanding;
    if th.pc == Spin {
      IdleBuffer(th, fenced, iters, one);
    }
  }

  /** Outside the barrier. */
  lemma BodyKeepsCrossing(m: Memory, th: Thread, other: Thread, fenced: bool, iters: nat, one: bool)
    requires Crossing(m, th, other) && !Blocked(th, iters)
    requires th.pc != Enter && th.pc != Publish && th.pc != Spin && th.pc != Reset
    ensures var e := Act(m, th, fenced, one); Crossing(e.mem, e.th, other)
  {
    hide See;
  }

  /** The oldest buffered store is the counter reset exactly when publishing. */
  lemma OldestStore(th: Thread, fenced: bool, iters: nat, one: bool)
    requires ThreadOk(fenced, iters, one, th) && th.buffer != []
    ensures th.pc == Publish ==> th.buffer == [Store(Count, 0)]
    ensures th.pc != Publish ==> th.buffer[0].loc != Count
    ensures th.buffer[0].loc != Sense
  {
    DropLeft(th.buffer, Outstanding(fenced, one, th));
  }

  lemma FlushKeepsOwn(th: Thread, fenced: bool, iters: nat, one: bool)
    requires ThreadOk(fenced, iters, one, th) && th.buffer != []
    ensures ThreadOk(fenced, iters, one, th.(buffer := th.buffer[1..]))
  {
    hide LeftOf, Outstanding;
    DropLeft(th.buffer, Outstanding(fenced, one, th));
    OutstandingFrame(fenced, one, th, th.buffer[1..]);
  }

  lemma OutstandingFrame(fenced: bool, one: bool, th: Thread, buffer: seq<Store>)
    ensures Outstanding(fenced, one, th.(buffer := buffer)) == Outstanding(fenced, one, th)
  {
  }

  lemma FlushKeepsCrossing(m: Memory, th: Thread, other: Thread, fenced: bool, iters: nat, one: bool)
    requires ThreadOk(fenced, iters, one, th) && Crossing(m, th, other) && th.buffer != []
    ensures Crossing(Write(m, th.buffer[0]), th.(buffer := th.buffer[1..]), other)
  {
    hide ThreadOk;
    OldestStore(th, fenced, iters, one);
  }

  lemma CrossingSymmetric(m: Memory, a: Thread, b: Thread)
    ensures Crossing(m, a, b) == Crossing(m, b, a)
  {
  }

  lemma NextKeepsInv(s: State, fenced: bool, iters: nat, move: Move)
    requires Inv(s, fenced, iters)
    ensures Inv(Next(s, fenced, iters, move), fenced, iters)
  {
    hide ThreadOk, Crossing, Act, Write, Pushes, Blocked;
    var th, other := Get(s, move.one), Get(s, !move.one);
    var s' := Next(s, fenced, iters, move);
    CrossingSymmetric(s.mem, s.zero, s.one);
    CrossingSymmetric(s'.mem, s'.zero, s'.one);
    if move.Step? {
      if !Blocked(th, iters) {
        if Pushes(th.pc) {
          PushKeepsOwn(s.mem, th, fenced, iters, move.one);
        } else {
          PlainKeepsOwn(s.mem, th, fenced, iters, move.one);
        }
        if th.pc == Enter || th.pc == Publish || th.pc == Spin || th.pc == Reset {
          BarrierKeepsCrossing(s.mem, th, other, fenced, iters, move.one);
        } else {
          BodyKeepsCrossing(s.mem, th, other, fenced, iters, move.one);
        }
      }
    } else if th.buffer != [] {
      FlushKeepsOwn(th, fenced, iters, move.one);
      FlushKeepsCrossing(s.mem, th, other, fenced, iters, move.one);
    }
  }

  lemma {:induction false} RunKeepsInv(fenced: bool, iters: nat, moves: seq<Move>)
    ensures Inv(After(fenced, iters, moves), fenced, iters)
    decreases |moves|
  {
    if moves != [] {
      hide Inv, Next;
      RunKeepsInv(fenced, iters, moves[..|moves| - 1]);
      NextKeepsInv(After(fenced, iters, moves[..|moves| - 1]), fenced, iters, moves[|moves| - 1]);
    }
  }

  /** Still waiting in, or closing, the crossing it entered last. */
  predicate InBarrier(th: Thread) { th.pc == Spin || Closing(th) }

  /** The barrier separates: in every run, with or without the fence, a thread that
      has left its crossings has not left one the other has not entered, and a
      thread about to enter finds the counter counting only this crossing. */
  lemma BarrierSeparates(fenced: bool, iters: nat, moves: seq<Move>, one: bool)
    ensures var s := After(fenced, iters, moves);
            && (!InBarrier(Get(s, one)) ==> Get(s, one).entered <= Get(s, !one).entered)
            && Get(s, one).entered <= Get(s, !one).entered + 1
            && (Get(s, one).pc == Enter ==> s.mem.count == Get(s, !one).entered - Get(s, one).entered)
  {
    hide ThreadOk, After;
    RunKeepsInv(fenced, iters, moves);
  }

  predicate Finished(s: State, iters: nat) {
    AtEnd(s.zero, iters) && AtEnd(s.one, iters) && s.zero.buffer == [] && s.one.buffer == []
  }

  lemma DrainMoves(s: State, fenced: bool, iters: nat, one: bool)
    requires Get(s, one).buffer != []
    ensures Next(s, fenced, iters, Drain(one)) != s
  {
    var th := Get(s, one);
    assert th.buffer[1..] != th.buffer;
    assert Get(Next(s, fenced, iters, Drain(one)), one).buffer == th.buffer[1..];
  }

  lemma StepMoves(s: State, fenced: bool, iters: nat, one: bool)
    requires Get(s, one).buffer == [] && !AtEnd(Get(s, one), iters)
    requires Get(s, one).pc == Spin ==> s.mem.sense == Get(s, one).sense
    ensures Next(s, fenced, iters, Step(one)) != s
  {
    var th := Get(s, one);
    var e := Act(s.mem, th, fenced, one);
    assert e.th.pc != th.pc || e.th.entered != th.entered;
    assert Get(Next(s, fenced, iters, Step(one)), one) == e.th;
  }

  /** The barrier never hangs: in every reachable state that is not the end of both
      threads with empty buffers, some move changes the state. */
  lemma NeverStuck(fenced: bool, iters: nat, moves: seq<Move>)
    requires !Finished(After(fenced, iters, moves), iters)
    ensures exists m :: Next(After(fenced, iters, moves), fenced, iters, m) != After(fenced, iters, moves)
  {
    hide After, Next, LeftOf, Outstanding;
    var s := After(fenced, iters, moves);
    RunKeepsInv(fenced, iters, moves);
    if s.zero.buffer != [] {
      DrainMoves(s, fenced, iters, false);
    } else if s.one.buffer != [] {
      DrainMoves(s, fenced, iters, true);
    } else if AtEnd(s.zero, iters) || (s.zero.pc == Spin && s.mem.sense != s.zero.sense) {
      StepMoves(s, fenced, iters, true);
    } else {
      StepMoves(s, fenced, iters, false);
    }
  }
}
