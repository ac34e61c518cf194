/** Branch words, how a forward branch is patched, and the reference assembler
    that back-patching is compared with.

    I-form: op 18 | LI(24) | AA | LK.  B-form: op 16 | BO(5) | BI(5) | BD(14) | AA | LK. */
module BranchPatching {
  import opened Options
  import opened Bits

  const WORD: nat := 0x1_0000_0000

  /** The branches that can be emitted against a label. */
  datatype Kind = B | Bl | Bc(bo: nat, bi: nat) {
    predicate Valid() { Bc? ==> bo < 32 && bi < 32 }
  }

  /** The word emitted for an unbound label: the branch with a zero offset. */
  function Placeholder(k: Kind): nat {
    match k
    case B => 18 * 0x400_0000
    case Bl => BitOr(18 * 0x400_0000, 1)
    case Bc(bo, bi) => BitOr(BitOr(16 * 0x400_0000, bo * 0x20_0000), bi * 0x1_0000)
  }

  /** The word emitted for a branch of known distance. */
  function Direct(k: Kind, delta: int): nat {
    var li, bd := delta / 4 % 0x100_0000, delta / 4 % 0x4000;
    match k
    case B => BitOr(18 * 0x400_0000, li * 4)
    case Bl => BitOr(BitOr(18 * 0x400_0000, li * 4), 1)
    case Bc(bo, bi) => BitOr(BitOr(BitOr(16 * 0x400_0000, bo * 0x20_0000), bi * 0x1_0000), bd * 4)
  }

  /** A branch of this kind can span the distance. */
  predicate Reaches(k: Kind, delta: int) {
    && delta % 4 == 0
    && if k.Bc? then -0x8000 <= delta <= 0x7FFC else -0x200_0000 <= delta < 0x200_0000
  }

  /** The same question asked of an emitted word, as the patcher does. */
  predicate WordReaches(w: nat, delta: int) {
    && delta % 4 == 0
    && (w / 0x400_0000 == 18 ==> -0x200_0000 <= delta < 0x200_0000)
    && (w / 0x400_0000 == 16 ==> -0x8000 <= delta <= 0x7FFC)
  }

  /** Rewrites the offset field of an emitted branch word. */
  function Patch(w: nat, delta: int): nat {
    var li, bd := delta / 4 % 0x100_0000, delta / 4 % 0x4000;
    if w / 0x400_0000 == 18 then BitOr(BitAnd(w, 0xFC00_0003), li * 4)
    else if w / 0x400_0000 == 16 then BitOr(BitAnd(w, 0xFFFF_0003), bd * 4)
    else w
  }

  /** The signed distance encoded in an n-bit field of words. */
  function SignedWords(f: nat, n: nat): int { if 2 * f < n then 4 * f else 4 * (f - n) }

  /** What the processor makes of a branch word: kind and distance. */
  function DecodeBranch(w: nat): Option<(Kind, int)> {
    if w / 0x400_0000 == 18 && w / 2 % 2 == 0 then
      Some((if w % 2 == 1 then Bl else B, SignedWords(w / 4 % 0x100_0000, 0x100_0000)))
    else if w / 0x400_0000 == 16 && w % 4 == 0 then
      Some((Bc(w / 0x20_0000 % 32, w / 0x1_0000 % 32), SignedWords(w / 4 % 0x4000, 0x4000)))
    else None
  }

  lemma PowersHere()
    ensures Pow2(2) == 4 && Pow2(16) == 0x1_0000 && Pow2(21) == 0x20_0000 && Pow2(26) == 0x400_0000
    ensures Pow2(24) == 0x100_0000 && Pow2(14) == 0x4000 && Pow2(6) == 64 && Pow2(1) == 2
  {
    assert Pow2(1) == 2 && Pow2(2) == 4;
    Pow2Add(2, 2);
    Pow2Add(4, 2);
    Pow2Add(6, 4);
    Pow2Add(10, 4);
    Pow2Add(14, 2);
    Pow2Add(14, 10);
    Pow2Add(24, 2);
    Pow2Add(16, 4);
    Pow2Add(20, 1);
  }

  /** Or-ing a field into bits 2 and up of a word that has zeros there. */
  lemma OrFieldAbove2(top: nat, f: nat, low: nat, k: nat, p: nat)
    requires p == Pow2(k) && top % p == 0 && f < p && low < 4
    ensures BitOr(4 * top + low, 4 * f) == 4 * (top + f) + low
  {
    hide BitOr, Shl, Pow2;
    PowersHere();
    OrField(top, f, k, p);
    OrSplit(top, low, f, 0, 2);
    ShlIsMul(top, 2);
    ShlIsMul(f, 2);
    ShlIsMul(top + f, 2);
    OrZero(low);
  }

  lemma OrZero(a: nat)
    ensures BitOr(a, 0) == a
  {
  }

  lemma AndThree(x: nat)
    ensures BitAnd(x, 3) == x % 4
  {
    hide BitAnd, Shl, Pow2;
    PowersHere();
    AndSplit(x / 4, x % 4, 0, 3, 2);
    ShlIsMul(x / 4, 2);
    ShlIsMul(0, 2);
    AndZero(x / 4);
    AndOnes(x % 4, 2);
  }

  /** The opcode mask keeps the opcode, AA and LK of an unconditional branch. */
  lemma KeepOpcode(w: nat)
    requires w < WORD
    ensures BitAnd(w, 0xFC00_0003) == w / 0x400_0000 * 0x400_0000 + w % 4
  {
    hide BitAnd, Shl, Pow2;
    PowersHere();
    var op, low := w / 0x400_0000, w % 0x400_0000;
    AndSplit(op, low, 0x3F, 3, 26);
    ShlIsMul(op, 26);
    ShlIsMul(0x3F, 26);
    AndOnes(op, 6);
    AndThree(low);
    LowTwoBits(op, 0x100_0000, low);
  }

  /** The upper-half mask keeps the opcode, BO, BI, AA and LK of a conditional
      branch. */
  lemma KeepCondition(w: nat)
    requires w < WORD
    ensures BitAnd(w, 0xFFFF_0003) == w / 0x1_0000 * 0x1_0000 + w % 4
  {
    hide BitAnd, Shl, Pow2;
    PowersHere();
    var up, low := w / 0x1_0000, w % 0x1_0000;
    AndSplit(up, low, 0xFFFF, 3, 16);
    ShlIsMul(up, 16);
    ShlIsMul(0xFFFF, 16);
    AndOnes(up, 16);
    AndThree(low);
    LowTwoBits(up, 0x4000, low);
  }

  lemma LowTwoBits(up: nat, m: nat, low: nat)
    ensures (up * (4 * m) + low) % 4 == low % 4
  {
    DivUnique(up * (4 * m) + low, 4, up * m + low / 4, low % 4);
  }

  /** Patching as arithmetic on the fields. */
  lemma PatchFields(w: nat, delta: int)
    requires w < WORD
    ensures w / 0x400_0000 == 18 ==> Patch(w, delta) == 18 * 0x400_0000 + delta / 4 % 0x100_0000 * 4 + w % 4
    ensures w / 0x400_0000 == 16 ==> Patch(w, delta) == w / 0x1_0000 * 0x1_0000 + delta / 4 % 0x4000 * 4 + w % 4
  {
    hide BitAnd, BitOr, Pow2;
    PowersHere();
    KeepOpcode(w);
    KeepCondition(w);
    OrFieldAbove2(w / 0x400_0000 * 0x100_0000, delta / 4 % 0x100_0000, w % 4, 24, 0x100_0000);
    OrFieldAbove2(w / 0x1_0000 * 0x4000, delta / 4 % 0x4000, w % 4, 14, 0x4000);
  }

  /** The placeholder as arithmetic on the fields. */
  lemma PlaceholderFields(k: Kind)
    requires k.Valid()
    ensures Placeholder(k) < WORD
    ensures k.B? ==> Placeholder(k) == 18 * 0x400_0000
    ensures k.Bl? ==> Placeholder(k) == 18 * 0x400_0000 + 1
    ensures k.Bc? ==> Placeholder(k) == 16 * 0x400_0000 + k.bo * 0x20_0000 + k.bi * 0x1_0000
    ensures Placeholder(k) / 0x400_0000 == if k.Bc? then 16 else 18
  {
    hide BitOr, Pow2;
    PowersHere();
    OrField(18 * 0x400_0000, 1, 1, 2);
    if k.Bc? {
      OrField(16 * 0x400_0000, k.bo * 0x20_0000, 26, 0x400_0000);
      OrField(16 * 0x400_0000 + k.bo * 0x20_0000, k.bi * 0x1_0000, 21, 0x20_0000);
    }
  }

  /** A forward branch patched later is the very word a backward branch of the
      same distance is emitted as. */
  lemma PatchedIsDirect(k: Kind, delta: int)
    requires k.Valid()
    ensures Patch(Placeholder(k), delta) == Direct(k, delta)
  {
    hide BitAnd, BitOr, Pow2, Placeholder, Patch;
    PlaceholderFields(k);
    PatchFields(Placeholder(k), delta);
    if k.Bc? {
      ShiftedField(k.bo * 32 + k.bi);
      DirectBc(k.bo, k.bi, delta);
    } else {
      DirectB(k, delta);
    }
  }

  lemma DirectB(k: Kind, delta: int)
    requires !k.Bc?
    ensures Direct(k, delta) == 18 * 0x400_0000 + delta / 4 % 0x100_0000 * 4 + if k.Bl? then 1 else 0
  {
    hide BitOr, Pow2;
    PowersHere();
    var li := delta / 4 % 0x100_0000;
    OrField(18 * 0x400_0000, li * 4, 26, 0x400_0000);
    OrField(18 * 0x400_0000 + li * 4, 1, 1, 2);
  }

  lemma DirectBc(bo: nat, bi: nat, delta: int)
    requires bo < 32 && bi < 32
    ensures Direct(Bc(bo, bi), delta) == 16 * 0x400_0000 + bo * 0x20_0000 + bi * 0x1_0000 + delta / 4 % 0x4000 * 4
  {
    hide BitOr, Pow2;
    PowersHere();
    OrField(16 * 0x400_0000, bo * 0x20_0000, 26, 0x400_0000);
    OrField(16 * 0x400_0000 + bo * 0x20_0000, bi * 0x1_0000, 21, 0x20_0000);
    OrField(16 * 0x400_0000 + bo * 0x20_0000 + bi * 0x1_0000, delta / 4 % 0x4000 * 4, 16, 0x1_0000);
  }

  /** A field holding a reachable distance reads back as that distance. */
  lemma FieldReadsBack(delta: int, n: nat)
    requires n > 0 && n % 2 == 0 && delta % 4 == 0 && -2 * n <= delta < 2 * n
    ensures SignedWords(delta / 4 % n, n) == delta
  {
    var q := delta / 4;
    if q < 0 { DivUnique(q, n, -1, q + n); } else { DivUnique(q, n, 0, q); }
  }

  /** A patched placeholder decodes to the same kind of branch, with the distance
      it was patched to; opcode, BO, BI and LK are kept. */
  lemma PatchedDecodes(k: Kind, delta: int)
    requires k.Valid() && Reaches(k, delta)
    ensures Patch(Placeholder(k), delta) < WORD
    ensures DecodeBranch(Patch(Placeholder(k), delta)) == Some((k, delta))
  {
    hide BitAnd, BitOr, Pow2, Placeholder, Patch, SignedWords, DecodeBranch;
    PlaceholderFields(k);
    PatchFields(Placeholder(k), delta);
    if k.Bc? {
      FieldReadsBack(delta, 0x4000);
      BcDecodes(k.bo, k.bi, delta / 4 % 0x4000);
      ShiftedField(k.bo * 32 + k.bi);
    } else {
      FieldReadsBack(delta, 0x100_0000);
      BDecodes(delta / 4 % 0x100_0000, if k.Bl? then 1 else 0);
    }
  }

  lemma BDecodes(li: nat, lk: nat)
    requires li < 0x100_0000 && lk < 2
    ensures var w := 18 * 0x400_0000 + li * 4 + lk;
            w < WORD && DecodeBranch(w) == Some((if lk == 1 then Bl else B, SignedWords(li, 0x100_0000)))
  {
    hide SignedWords;
    BFields(li, lk);
  }

  lemma BcDecodes(bo: nat, bi: nat, bd: nat)
    requires bo < 32 && bi < 32 && bd < 0x4000
    ensures var w := 16 * 0x400_0000 + bo * 0x20_0000 + bi * 0x1_0000 + bd * 4;
            w < WORD && DecodeBranch(w) == Some((Bc(bo, bi), SignedWords(bd, 0x4000)))
  {
    hide SignedWords;
    BcFields(bo, bi, bd);
  }

  lemma ShiftedField(f: nat)
    ensures (16 * 0x400_0000 + f * 0x1_0000) / 0x1_0000 * 0x1_0000 == 16 * 0x400_0000 + f * 0x1_0000
    ensures (16 * 0x400_0000 + f * 0x1_0000) % 4 == 0
  {
  }

  lemma BFields(li: nat, lk: nat)
    requires li < 0x100_0000 && lk < 2
    ensures var w := 18 * 0x400_0000 + li * 4 + lk;
            && w / 0x400_0000 == 18 && w / 2 % 2 == 0 && w % 2 == lk && w < WORD && w / 4 % 0x100_0000 == li
  {
    var w := 18 * 0x400_0000 + li * 4 + lk;
    DivUnique(w, 4, 18 * 0x100_0000 + li, lk);
    DivUnique(18 * 0x100_0000 + li, 0x100_0000, 18, li);
    DivUnique(w, 0x400_0000, 18, li * 4 + lk);
    DivUnique(w, 2, 18 * 0x200_0000 + li * 2, lk);
  }

  lemma BcFields(bo: nat, bi: nat, bd: nat)
    requires bo < 32 && bi < 32 && bd < 0x4000
    ensures var w := 16 * 0x400_0000 + bo * 0x20_0000 + bi * 0x1_0000 + bd * 4;
            && w / 0x400_0000 == 16 && w % 4 == 0 && w < WORD
            && w / 0x20_0000 % 32 == bo && w / 0x1_0000 % 32 == bi && w / 4 % 0x4000 == bd
  {
    var w := 16 * 0x400_0000 + bo * 0x20_0000 + bi * 0x1_0000 + bd * 4;
    DivUnique(w, 0x400_0000, 16, bo * 0x20_0000 + bi * 0x1_0000 + bd * 4);
    DivUnique(w, 0x20_0000, 16 * 32 + bo, bi * 0x1_0000 + bd * 4);
    DivUnique(w, 0x1_0000, 16 * 1024 + bo * 32 + bi, bd * 4);
    DivUnique(w, 4, 16 * 0x100_0000 + bo * 0x8_0000 + bi * 0x4000 + bd, 0);
    DivUnique(16 * 32 + bo, 32, 16, bo);
    DivUnique(16 * 1024 + bo * 32 + bi, 32, 16 * 32 + bo, bi);
    DivUnique(16 * 0x100_0000 + bo * 0x8_0000 + bi * 0x4000 + bd, 0x4000, 16 * 1024 + bo * 32 + bi, bd);
  }

  // ----- distances

  /** The distance from a branch to its target, as the emitter computes it from the
      two offsets cast to 32 bits. */
  function Delta(target: int, at: int): int { AsInt32(target) - AsInt32(at) }

  /** Which window of four gibibytes, centred on a multiple of that, an offset is in. */
  function Window(x: int): int { (x + 0x8000_0000) / WORD }

  lemma CastDropsWindow(x: int)
    ensures AsInt32(x) == x - WORD * Window(x)
  {
    DivUnique(x + 0x8000_0000, WORD, Window(x), (x + 0x8000_0000) % WORD);
    var y := x - WORD * Window(x);
    if y < 0 {
      DivUnique(x, WORD, Window(x) - 1, y + WORD);
    } else {
      DivUnique(x, WORD, Window(x), y);
    }
  }

  /** Exactly when the casts lose nothing of a distance: both offsets lie in the same
      window, as any two below two gibibytes do. */
  lemma DeltaExact(target: int, at: int)
    ensures at + Delta(target, at) == target <==> Window(target) == Window(at)
    ensures 0 <= target < 0x8000_0000 && 0 <= at < 0x8000_0000 ==> Window(target) == Window(at)
  {
    hide AsInt32;
    CastDropsWindow(target);
    CastDropsWindow(at);
  }

  // ----- the program being emitted

  /** One word of the output: either fixed, or a branch to a label, with the
      target once the label has been bound. */
  datatype Item<L> = Raw(word: nat) | Branch(dest: L, kind: Kind, target: Option<int>)

  function WordOf<L>(it: Item<L>, at: nat): nat {
    match it
    case Raw(w) => w
    case Branch(_, k, None) => Placeholder(k)
    case Branch(_, k, Some(t)) => Direct(k, Delta(t, at))
  }

  function BindItem<L(==)>(it: Item<L>, l: L, offset: int): Item<L> {
    if it.Branch? && it.dest == l && it.target.None? then it.(target := Some(offset)) else it
  }

  /** Binding a label resolves every branch still waiting for it, and nothing
      else. */
  function BindAll<L(==)>(prog: seq<Item<L>>, l: L, offset: int): (r: seq<Item<L>>)
    ensures |r| == |prog|
  {
    seq(|prog|, i requires 0 <= i < |prog| => BindItem(prog[i], l, offset))
  }

  // ----- one pass with back-patching against two passes

  datatype Op<L> = EmitWord(word: nat) | BranchTo(dest: L, kind: Kind) | BindLabel(dest: L)

  datatype Asm<L> = Asm(prog: seq<Item<L>>, env: map<L, int>)

  function Lookup<L(==)>(env: map<L, int>, l: L): Option<int> { if l in env then Some(env[l]) else None }

  /** Executes a script the way the emitter does, patching as labels are bound. */
  function OnePass<L(==)>(ops: seq<Op<L>>): Asm<L> {
    if ops == [] then Asm([], map[])
    else
      var a := OnePass(ops[..|ops| - 1]);
      match ops[|ops| - 1]
      case EmitWord(w) => Asm(a.prog + [Raw(w)], a.env)
      case BranchTo(l, k) => Asm(a.prog + [Branch(l, k, Lookup(a.env, l))], a.env)
      case BindLabel(l) => Asm(BindAll(a.prog, l, 4 * |a.prog|), a.env[l := 4 * |a.prog|])
  }

  /** First pass: where each label is bound. */
  function Offsets<L(==)>(ops: seq<Op<L>>): (r: (map<L, int>, nat)) {
    if ops == [] then (map[], 0)
    else
      var (env, n) := Offsets(ops[..|ops| - 1]);
      match ops[|ops| - 1]
      case EmitWord(_) => (env, n + 1)
      case BranchTo(_, _) => (env, n + 1)
      case BindLabel(l) => (env[l := 4 * n], n)
  }

  /** Second pass: every branch gets the offset of its label. */
  function Emitted<L(==)>(ops: seq<Op<L>>, env: map<L, int>): seq<Item<L>> {
    if ops == [] then []
    else
      var p := Emitted(ops[..|ops| - 1], env);
      match ops[|ops| - 1]
      case EmitWord(w) => p + [Raw(w)]
      case BranchTo(l, k) => p + [Branch(l, k, Lookup(env, l))]
      case BindLabel(_) => p
  }

  function TwoPass<L(==)>(ops: seq<Op<L>>): seq<Item<L>> {
    Emitted(ops, Offsets(ops).0)
  }

  /** No label is bound twice. */
  ghost predicate BoundOnce<L>(ops: seq<Op<L>>) {
    forall i, j :: 0 <= i < j < |ops| && ops[i].BindLabel? && ops[j].BindLabel? ==> ops[i].dest != ops[j].dest
  }

  lemma {:induction false} OffsetsDomain<L>(ops: seq<Op<L>>, l: L)
    ensures l in Offsets(ops).0 <==> exists i :: 0 <= i < |ops| && ops[i].BindLabel? && ops[i].dest == l
    decreases |ops|
  {
    if ops != [] {
      OffsetsDomain(ops[..|ops| - 1], l);
      assert ops == ops[..|ops| - 1] + [ops[|ops| - 1]];
    }
  }

  /** Learning one more label's offset is what binding that label does. */
  lemma {:induction false} EmittedBind<L>(ops: seq<Op<L>>, env: map<L, int>, l: L, offset: int)
    requires l !in env
    ensures Emitted(ops, env[l := offset]) == BindAll(Emitted(ops, env), l, offset)
    decreases |ops|
  {
    if ops != [] { EmittedBind(ops[..|ops| - 1], env, l, offset); }
  }

  /** Back-patching computes what a two-pass assembler computes, at every point
      of every script that binds no label twice. */
  lemma {:induction false} OnePassIsTwoPass<L>(ops: seq<Op<L>>)
    requires BoundOnce(ops)
    ensures OnePass(ops).prog == TwoPass(ops)
    ensures OnePass(ops).env == Offsets(ops).0 && |OnePass(ops).prog| == Offsets(ops).1
    decreases |ops|
  {
    if ops != [] {
      var init, last := ops[..|ops| - 1], ops[|ops| - 1];
      OnePassIsTwoPass(init);
      if last.BindLabel? {
        OffsetsDomain(init, last.dest);
        EmittedBind(init, Offsets(init).0, last.dest, 4 * Offsets(init).1);
      }
    }
  }

  /** Every resolved branch can span its distance. */
  ghost predicate InReach<L>(prog: seq<Item<L>>) {
    forall i :: 0 <= i < |prog| && prog[i].Branch? && prog[i].target.Some? ==>
      Reaches(prog[i].kind, Delta(prog[i].target.value, 4 * i))
  }

  /** The branches an operation resolves can span their distances. */
  ghost predicate OpInReach<L>(op: Op<L>, a: Asm<L>) {
    match op
    case EmitWord(_) => true
    case BranchTo(l, k) => l in a.env ==> Reaches(k, Delta(a.env[l], 4 * |a.prog|))
    case BindLabel(l) =>
      forall i :: 0 <= i < |a.prog| && a.prog[i].Branch? && a.prog[i].dest == l && a.prog[i].target.None? ==>
        Reaches(a.prog[i].kind, Delta(4 * |a.prog|, 4 * i))
  }

  lemma AppendInReach<L>(prog: seq<Item<L>>, it: Item<L>)
    ensures InReach(prog + [it]) <==>
            InReach(prog) && (it.Branch? && it.target.Some? ==> Reaches(it.kind, Delta(it.target.value, 4 * |prog|)))
  {
    hide Reaches, Delta;
    var more := prog + [it];
    assert more[|prog|] == it;
    forall i | 0 <= i < |prog| ensures more[i] == prog[i] {}
    if InReach(more) {
      forall i | 0 <= i < |prog| && prog[i].Branch? && prog[i].target.Some?
        ensures Reaches(prog[i].kind, Delta(prog[i].target.value, 4 * i))
      {
        assert more[i] == prog[i];
      }
    }
  }

  lemma BindInReach<L>(prog: seq<Item<L>>, l: L, offset: int)
    ensures InReach(BindAll(prog, l, offset)) <==>
            && InReach(prog)
            && forall i :: 0 <= i < |prog| && prog[i].Branch? && prog[i].dest == l && prog[i].target.None? ==>
                 Reaches(prog[i].kind, Delta(offset, 4 * i))
  {
    hide Reaches, Delta;
    var after := BindAll(prog, l, offset);
    if InReach(after) {
      forall i | 0 <= i < |prog| && prog[i].Branch?
        ensures prog[i].target.Some? ==> Reaches(prog[i].kind, Delta(prog[i].target.value, 4 * i))
        ensures prog[i].dest == l && prog[i].target.None? ==> Reaches(prog[i].kind, Delta(offset, 4 * i))
      {
        assert after[i] == BindItem(prog[i], l, offset);
      }
    }
  }

  /** A script stays in reach through an operation exactly when that operation's
      own branches do. */
  lemma OnePassReach<L>(ops: seq<Op<L>>)
    requires ops != []
    ensures var a := OnePass(ops[..|ops| - 1]);
            InReach(OnePass(ops).prog) <==> InReach(a.prog) && OpInReach(ops[|ops| - 1], a)
  {
    hide InReach, Reaches, Delta, BindAll;
    var a := OnePass(ops[..|ops| - 1]);
    match ops[|ops| - 1]
    case EmitWord(w) => AppendInReach(a.prog, Raw(w));
    case BranchTo(l, k) => AppendInReach(a.prog, Branch(l, k, Lookup(a.env, l)));
    case BindLabel(l) => BindInReach(a.prog, l, 4 * |a.prog|);
  }

  /** What is out of reach once stays so. */
  lemma {:induction false} ReachOfPrefix<L>(ops: seq<Op<L>>, n: nat)
    requires n <= |ops| && InReach(OnePass(ops).prog)
    ensures InReach(OnePass(ops[..n]).prog)
    decreases |ops|
  {
    hide InReach, OpInReach, OnePass;
    if n < |ops| {
      OnePassReach(ops);
      assert ops[..|ops| - 1][..n] == ops[..n];
      ReachOfPrefix(ops[..|ops| - 1], n);
    } else {
      assert ops[..n] == ops;
    }
  }

  /** The offset lies inside the first n words, or right after them. */
  predicate Within(target: int, n: nat) { 0 <= target <= 4 * n }

  ghost predicate TargetsWithin<L>(a: Asm<L>) {
    && (forall l :: l in a.env ==> Within(a.env[l], |a.prog|))
    && (forall i :: 0 <= i < |a.prog| && a.prog[i].Branch? && a.prog[i].target.Some? ==>
          Within(a.prog[i].target.value, |a.prog|))
  }

  /** A script binds its labels, and so resolves its branches, inside the program. */
  lemma {:induction false} OnePassTargets<L>(ops: seq<Op<L>>)
    ensures TargetsWithin(OnePass(ops))
    decreases |ops|
  {
    if ops != [] {
      var a, b := OnePass(ops[..|ops| - 1]), OnePass(ops);
      OnePassTargets(ops[..|ops| - 1]);
      forall i | 0 <= i < |b.prog| && b.prog[i].Branch? && b.prog[i].target.Some?
        ensures Within(b.prog[i].target.value, |b.prog|)
      {
        if i < |a.prog| && a.prog[i].Branch? && a.prog[i].target.Some? {
          assert Within(a.prog[i].target.value, |a.prog|);
        }
      }
    }
  }

  // ----- what the ranges are for

  /** Some word is, to the processor, a branch of this kind over this distance. */
  ghost predicate Encodable(k: Kind, delta: int) {
    exists w: nat :: w < WORD && DecodeBranch(w) == Some((k, delta))
  }

  lemma FieldRange(f: nat, n: nat)
    requires f < n && n % 2 == 0
    ensures SignedWords(f, n) % 4 == 0 && -2 * n <= SignedWords(f, n) <= 2 * n - 4
  {
  }

  /** The range test is exact: it passes precisely the distances the instruction set
      has a word for. */
  lemma ReachesIffEncodable(k: Kind, delta: int)
    requires k.Valid()
    ensures Reaches(k, delta) <==> Encodable(k, delta)
  {
    hide SignedWords, Patch, Placeholder;
    if Reaches(k, delta) {
      PatchedDecodes(k, delta);
    } else {
      forall w: nat | w < WORD ensures DecodeBranch(w) != Some((k, delta)) {
        FieldRange(w / 4 % 0x100_0000, 0x100_0000);
        FieldRange(w / 4 % 0x4000, 0x4000);
      }
    }
  }

  /** The same for the test the patcher makes on the word it finds. */
  lemma WordReachesIffEncodable(w: nat, k: Kind, was: int, delta: int)
    requires w < WORD && DecodeBranch(w) == Some((k, was))
    ensures WordReaches(w, delta) <==> Encodable(k, delta)
  {
    hide SignedWords;
    ReachesIffEncodable(k, delta);
  }

  /** Every resolved branch has a word for its distance. */
  ghost predicate Expressible<L>(prog: seq<Item<L>>) {
    forall i :: 0 <= i < |prog| && prog[i].Branch? && prog[i].target.Some? ==>
      Encodable(prog[i].kind, Delta(prog[i].target.value, 4 * i))
  }

  ghost predicate KindsValid<L>(prog: seq<Item<L>>) {
    forall i :: 0 <= i < |prog| && prog[i].Branch? ==> prog[i].kind.Valid()
  }

  lemma InReachIffExpressible<L>(prog: seq<Item<L>>)
    requires KindsValid(prog)
    ensures InReach(prog) <==> Expressible(prog)
  {
    hide Reaches, Encodable, Delta;
    forall i | 0 <= i < |prog| && prog[i].Branch? && prog[i].target.Some?
      ensures Reaches(prog[i].kind, Delta(prog[i].target.value, 4 * i))
              <==> Encodable(prog[i].kind, Delta(prog[i].target.value, 4 * i))
    {
      ReachesIffEncodable(prog[i].kind, Delta(prog[i].target.value, 4 * i));
    }
  }

  lemma {:induction false} OnePassKinds<L>(ops: seq<Op<L>>)
    requires forall i :: 0 <= i < |ops| && ops[i].BranchTo? ==> ops[i].kind.Valid()
    ensures KindsValid(OnePass(ops).prog)
    decreases |ops|
  {
    if ops != [] {
      OnePassKinds(ops[..|ops| - 1]);
    }
  }
}
