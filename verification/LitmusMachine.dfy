/** The store-buffer litmus as a machine: two threads on x86-TSO, each with a FIFO
    store buffer, run the sense-reversing barrier, the litmus step, the barrier
    again, and thread zero evaluates and clears. */
module LitmusMachine {
  datatype Loc = X | Y | R0 | R1 | Count | Sense

  datatype Memory = Memory(x: int, y: int, r0: int, r1: int, count: int, sense: int)

  datatype Store = Store(loc: Loc, value: int)

  /** Enter is the barrier's fetch-and-add, or the end of the loop; Reset, Publish
      and Spin are inside the barrier; Flag to Result are the litmus step; Own to
      ClearY are thread zero's evaluation and reset. */
  datatype Pc = Enter | Reset | Publish | Spin | Flag | Fence | Load | Result | Own | Peer | ClearX | ClearY

  /** `entered` counts the barrier crossings begun; `value` is the last flag loaded;
      `fences` is the private word the fence increments. */
  datatype Thread = Thread(pc: Pc, sense: int, entered: nat, value: int, fences: nat, buffer: seq<Store>)

  datatype State = State(mem: Memory, zero: Thread, one: Thread, bothZero: nat)

  /** A move of thread one or thread zero: its next instruction, or its oldest
      buffered store reaching memory. */
  datatype Move = Step(one: bool) | Drain(one: bool)

  const WORD: nat := 0x1_0000_0000

  function Read(m: Memory, loc: Loc): int {
    match loc
    case X => m.x
    case Y => m.y
    case R0 => m.r0
    case R1 => m.r1
    case Count => m.count
    case Sense => m.sense
  }

  function Write(m: Memory, s: Store): Memory {
    match s.loc
    case X => m.(x := s.value)
    case Y => m.(y := s.value)
    case R0 => m.(r0 := s.value)
    case R1 => m.(r1 := s.value)
    case Count => m.(count := s.value)
    case Sense => m.(sense := s.value)
  }

  /** A load sees the thread's own newest buffered store to the location, else memory. */
  function See(m: Memory, buffer: seq<Store>, loc: Loc): int {
    if buffer == [] then Read(m, loc)
    else if buffer[|buffer| - 1].loc == loc then buffer[|buffer| - 1].value
    else See(m, buffer[..|buffer| - 1], loc)
  }

  function MyFlag(one: bool): Loc { if one then Y else X }

  function MyResult(one: bool): Loc { if one then R1 else R0 }

  function Get(s: State, one: bool): Thread { if one then s.one else s.zero }

  function Put(s: State, one: bool, th: Thread): State { if one then s.(one := th) else s.(zero := th) }

  function Push(th: Thread, loc: Loc, value: int, pc: Pc): Thread {
    th.(buffer := th.buffer + [Store(loc, value)], pc := pc)
  }

  /** Where a thread goes when it leaves a crossing: after the first of an iteration
      to the litmus step, after the second to the evaluation or the next iteration. */
  function Leave(one: bool, entered: nat): Pc {
    if entered % 2 == 1 then Flag else if one then Enter else Own
  }

  predicate AtEnd(th: Thread, iters: nat) { th.pc == Enter && th.entered == 2 * iters }

  /** Instructions that wait for the store buffer to empty. */
  predicate Locked(pc: Pc) { pc == Enter || pc == Publish || pc == Fence }

  /** Memory and thread after an instruction, and whether it counted a violation. */
  datatype Effect = Effect(mem: Memory, th: Thread, violation: bool)

  predicate Blocked(th: Thread, iters: nat) {
    AtEnd(th, iters) || (Locked(th.pc) && th.buffer != [])
  }

  /** The instruction at the thread's program counter. */
  function Act(m: Memory, th: Thread, fenced: bool, one: bool): Effect {
    match th.pc
    case Enter =>
      Effect(m.(count := m.count + 1),
             th.(sense := 1 - th.sense, entered := th.entered + 1, pc := if m.count + 1 == 2 then Reset else Spin),
             false)
    case Reset => Effect(m, Push(th, Count, 0, Publish), false)
    case Publish => Effect(m.(sense := th.sense), th.(pc := Leave(one, th.entered)), false)
    case Spin =>
      Effect(m, if See(m, th.buffer, Sense) == th.sense then th.(pc := Leave(one, th.entered)) else th, false)
    case Flag => Effect(m, Push(th, MyFlag(one), 1, if fenced then Fence else Load), false)
    case Fence => Effect(m, th.(fences := (th.fences + 1) % WORD, pc := Load), false)
    case Load => Effect(m, th.(value := See(m, th.buffer, MyFlag(!one)), pc := Result), false)
    case Result => Effect(m, Push(th, MyResult(one), th.value, Enter), false)
    case Own => Effect(m, th.(pc := if See(m, th.buffer, R0) == 0 then Peer else ClearX), false)
    case Peer => Effect(m, th.(pc := ClearX), See(m, th.buffer, R1) == 0)
    case ClearX => Effect(m, Push(th, X, 0, ClearY), false)
    case ClearY => Effect(m, Push(th, Y, 0, Enter), false)
  }

  function Instruction(s: State, fenced: bool, iters: nat, one: bool): State {
    if Blocked(Get(s, one), iters) then s
    else
      var e := Act(s.mem, Get(s, one), fenced, one);
      Put(s.(mem := e.mem, bothZero := s.bothZero + if e.violation then 1 else 0), one, e.th)
  }

  function Flush(s: State, one: bool): State {
    var th := Get(s, one);
    if th.buffer == [] then s
    else Put(s.(mem := Write(s.mem, th.buffer[0])), one, th.(buffer := th.buffer[1..]))
  }

  function Next(s: State, fenced: bool, iters: nat, m: Move): State {
    match m
    case Step(one) => Instruction(s, fenced, iters, one)
    case Drain(one) => Flush(s, one)
  }

  function Init(): State {
    var th := Thread(Enter, 0, 0, 0, 0, []);
    State(Memory(0, 0, 0, 0, 0, 0), th, th, 0)
  }

  function After(fenced: bool, iters: nat, moves: seq<Move>): State
    decreases |moves|
  {
    if moves == [] then Init()
    else Next(After(fenced, iters, moves[..|moves| - 1]), fenced, iters, moves[|moves| - 1])
  }
}
