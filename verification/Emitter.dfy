/** The emitter object: a byte buffer written word by word, labels, and the
    pending forward branches of each label kept as an intrusive linked list
    inside one append-only vector. */
module Emitter {
  import opened Options
  import opened BranchPatching

  type byte = x: int | 0 <= x < 256

  class Label {
    var offset: int
    var bound: bool
    /** Index of the most recent pending branch to this label, or -1. */
    var pendingHead: int

    constructor ()
      ensures offset == -1 && !bound && pendingHead == -1
    {
      offset := -1;
      bound := false;
      pendingHead := -1;
    }
  }

  /** One pending branch; `next` is the previous one to the same label, or -1. */
  datatype PendingEntry = PendingEntry(patchOffset: nat, next: int)

  type Program = seq<Item<Label>>

  // ----- the pending vector

  /** The last position before n that belongs to l, or -1. */
  ghost function LastBefore(owner: seq<Label>, l: Label, n: int): (r: int)
    requires n <= |owner|
    ensures -1 <= r && (r < n || r == -1)
    ensures r >= 0 ==> owner[r] == l
    ensures forall j :: 0 <= j < n && r < j ==> owner[j] != l
    decreases n
  {
    if n <= 0 then -1
    else if owner[n - 1] == l then n - 1
    else LastBefore(owner, l, n - 1)
  }

  lemma {:induction false} LastBeforeExtend(owner: seq<Label>, more: seq<Label>, l: Label, n: int)
    requires n <= |owner|
    ensures LastBefore(owner + more, l, n) == LastBefore(owner, l, n)
    decreases n
  {
    if n > 0 { LastBeforeExtend(owner, more, l, n - 1); }
  }

  /** What the pending vector records: `owner[k]` is the label entry k was added
      for, and `entryOf` finds the entry of a branch that is still unresolved. */
  datatype Ledger = Ledger(owner: seq<Label>, entryOf: map<nat, nat>)

  /** Entry k is a branch to its owner and links to the owner's previous entry. */
  ghost predicate EntryOk(prog: Program, pend: seq<PendingEntry>, owner: seq<Label>, k: nat)
    requires k < |pend| == |owner|
  {
    var e := pend[k];
    && e.next == LastBefore(owner, owner[k], k)
    && e.patchOffset % 4 == 0 && e.patchOffset / 4 < |prog|
    && prog[e.patchOffset / 4].Branch? && prog[e.patchOffset / 4].dest == owner[k]
  }

  /** The chains: entries in the order the branches were emitted, each linked to
      the previous one of the same label. */
  ghost predicate Chained(prog: Program, pend: seq<PendingEntry>, owner: seq<Label>) {
    && |owner| == |pend|
    && (forall k :: 0 <= k < |pend| ==> EntryOk(prog, pend, owner, k))
    && (forall k, m :: 0 <= k < m < |pend| ==> pend[k].patchOffset < pend[m].patchOffset)
  }

  /** Branch i is recorded in the pending vector as long as it is unresolved. */
  ghost predicate BranchOk(it: Item<Label>, i: nat, pend: seq<PendingEntry>, led: Ledger)
    reads (if it.Branch? then {it.dest} else {})`bound
  {
    it.Branch? ==>
      && it.kind.Valid()
      && it.target.None? == !it.dest.bound
      && (it.target.None? ==>
            && i in led.entryOf && led.entryOf[i] < |pend| == |led.owner|
            && pend[led.entryOf[i]].patchOffset == 4 * i
            && led.owner[led.entryOf[i]] == it.dest)
  }

  ghost predicate Tracked(prog: Program, pend: seq<PendingEntry>, led: Ledger, labels: set<Label>)
    reads labels
  {
    && (forall i :: 0 <= i < |prog| && prog[i].Branch? ==> prog[i].dest in labels && BranchOk(prog[i], i, pend, led))
    && (forall k :: 0 <= k < |led.owner| ==> led.owner[k] in labels)
    && (forall l :: l in labels ==> l.pendingHead == if l.bound then -1 else LastBefore(led.owner, l, |led.owner|))
  }

  // ----- the buffer

  /** Four bytes as a word, least significant first. */
  function FromBytes(b0: int, b1: int, b2: int, b3: int): int {
    b0 + 0x100 * b1 + 0x1_0000 * b2 + 0x100_0000 * b3
  }

  lemma BytesJoin(w: nat)
    requires w < WORD
    ensures w / 0x100_0000 < 256
    ensures FromBytes(w % 0x100, w / 0x100 % 0x100, w / 0x1_0000 % 0x100, w / 0x100_0000) == w
  {
    assert w / 0x100 / 0x100 == w / 0x1_0000 && w / 0x1_0000 / 0x100 == w / 0x100_0000;
  }

  function WordAt(b: array<byte>, at: nat): int
    requires at + 4 <= b.Length
    reads b
  {
    FromBytes(b[at], b[at + 1], b[at + 2], b[at + 3])
  }

  /** The buffer starts with the words of the program. */
  ghost predicate Holds(b: array<byte>, prog: Program)
    reads b
  {
    && 4 * |prog| <= b.Length
    && forall i :: 0 <= i < |prog| ==> WordAt(b, 4 * i) == WordOf(prog[i], 4 * i)
  }

  /** Writes a word, least significant byte first. */
  method Store(b: array<byte>, at: nat, insn: nat)
    requires at + 4 <= b.Length && insn < WORD
    modifies b
    ensures WordAt(b, at) == insn
    ensures forall j :: 0 <= j < b.Length && !(at <= j < at + 4) ==> b[j] == old(b[j])
  {
    hide FromBytes;
    BytesJoin(insn);
    b[at] := insn % 0x100;
    b[at + 1] := insn / 0x100 % 0x100;
    b[at + 2] := insn / 0x1_0000 % 0x100;
    b[at + 3] := insn / 0x100_0000;
  }

  /** Writes the next word of the program. */
  method StoreNext(b: array<byte>, at: nat, insn: nat, ghost prog: Program, ghost it: Item<Label>)
    requires Holds(b, prog) && at == 4 * |prog| && at + 4 <= b.Length && insn < WORD
    requires WordOf(it, at) == insn
    modifies b
    ensures Holds(b, prog + [it])
  {
    hide FromBytes, WordOf;
    Store(b, at, insn);
  }

  /** Rewrites the offset field of the branch at a byte offset, or refuses when
      the distance is misaligned or out of range. */
  method PatchBranchAt(b: array<byte>, at: nat, target: int) returns (ok: bool)
    requires at + 4 <= b.Length && WordAt(b, at) >= 0
    requires WordReaches(WordAt(b, at), Delta(target, at)) ==> Patch(WordAt(b, at), Delta(target, at)) < WORD
    modifies b
    ensures ok == WordReaches(old(WordAt(b, at)), Delta(target, at))
    ensures old(WordAt(b, at)) < WORD && DecodeBranch(old(WordAt(b, at))).Some? ==>
              (ok <==> Encodable(DecodeBranch(old(WordAt(b, at))).value.0, Delta(target, at)))
    ensures ok ==> WordAt(b, at) == Patch(old(WordAt(b, at)), Delta(target, at))
    ensures forall j :: 0 <= j < b.Length && !(ok && at <= j < at + 4) ==> b[j] == old(b[j])
  {
    hide FromBytes, Patch, DecodeBranch, Encodable;
    var insn := WordAt(b, at);
    var delta := Delta(target, at);
    if insn < WORD && DecodeBranch(insn).Some? {
      WordReachesIffEncodable(insn, DecodeBranch(insn).value.0, DecodeBranch(insn).value.1, delta);
    }
    if !WordReaches(insn, delta) {
      return false;
    }
    Store(b, at, Patch(insn, delta));
    return true;
  }

  /** Patches word i of the program, a branch still waiting for its label. */
  method PatchItem(b: array<byte>, at: nat, target: int, ghost prog: Program, ghost i: nat) returns (ok: bool)
    requires Holds(b, prog) && i < |prog| && at == 4 * i
    requires prog[i].Branch? && prog[i].target.None? && prog[i].kind.Valid()
    modifies b
    ensures ok == Reaches(prog[i].kind, Delta(target, at))
    ensures ok ==> Holds(b, prog[i := prog[i].(target := Some(target))])
  {
    hide FromBytes, Patch, Delta, Placeholder, Direct, WordReaches, Reaches;
    ghost var k, delta := prog[i].kind, Delta(target, at);
    assert WordOf(prog[i], 4 * i) == Placeholder(k);
    PlaceholderFields(k);
    PlaceholderReaches(k, delta);
    PatchedIsDirect(k, delta);
    if Reaches(k, delta) { PatchedDecodes(k, delta); }
    ok := PatchBranchAt(b, at, target);
    if ok {
      assert WordAt(b, at) == Direct(k, delta);
      ghost var after := prog[i := prog[i].(target := Some(target))];
      forall j | 0 <= j < |prog| ensures WordAt(b, 4 * j) == WordOf(after[j], 4 * j) {
        if j != i {
          assert WordAt(b, 4 * j) == old(WordAt(b, 4 * j)) == WordOf(prog[j], 4 * j);
        }
      }
    }
  }

  /** A placeholder can be patched exactly as far as its kind reaches. */
  lemma PlaceholderReaches(k: Kind, delta: int)
    requires k.Valid()
    ensures WordReaches(Placeholder(k), delta) == Reaches(k, delta)
  {
    hide Placeholder;
    PlaceholderFields(k);
  }

  // ----- what extending the program does to the links

  lemma LinksAppend(prog: Program, it: Item<Label>, pend: seq<PendingEntry>, led: Ledger, labels: set<Label>)
    requires Chained(prog, pend, led.owner) && Tracked(prog, pend, led, labels)
    requires it.Branch? ==> it.dest in labels && BranchOk(it, |prog|, pend, led)
    ensures Chained(prog + [it], pend, led.owner) && Tracked(prog + [it], pend, led, labels)
  {
    hide LastBefore;
    var prog' := prog + [it];
    forall k | 0 <= k < |pend| ensures EntryOk(prog', pend, led.owner, k) {
      assert EntryOk(prog, pend, led.owner, k);
    }
  }

  lemma HeadAppend(owner: seq<Label>, lbl: Label, l: Label)
    ensures LastBefore(owner + [lbl], l, |owner| + 1) == if l == lbl then |owner| else LastBefore(owner, l, |owner|)
  {
    LastBeforeExtend(owner, [lbl], l, |owner|);
  }

  /** A new entry goes on the front of its label's chain and leaves the chains
      of all other labels alone. */
  lemma ChainAppend(prog: Program, pend: seq<PendingEntry>, owner: seq<Label>, lbl: Label, k: Kind)
    requires Chained(prog, pend, owner)
    ensures Chained(prog + [Branch(lbl, k, None)],
                    pend + [PendingEntry(4 * |prog|, LastBefore(owner, lbl, |owner|))], owner + [lbl])
  {
    hide LastBefore, EntryOk;
    var it, entry := Branch(lbl, k, None), PendingEntry(4 * |prog|, LastBefore(owner, lbl, |owner|));
    EntryNew(prog, pend, owner, lbl, k);
    EntriesAppend(prog, pend, owner, it, entry, lbl);
    OffsetsAppend(prog, pend, owner, entry);
  }

  /** The heads of all chains after an entry has been added. */
  lemma HeadsAppend(owner: seq<Label>, more: seq<Label>, lbl: Label)
    requires more == owner + [lbl]
    ensures forall l :: LastBefore(more, l, |more|) == if l == lbl then |owner| else LastBefore(owner, l, |owner|)
  {
    hide LastBefore;
    forall l
      ensures LastBefore(more, l, |more|) == if l == lbl then |owner| else LastBefore(owner, l, |owner|)
    {
      HeadAppend(owner, lbl, l);
    }
  }

  lemma EntriesAppend(prog: Program, pend: seq<PendingEntry>, owner: seq<Label>,
                      it: Item<Label>, entry: PendingEntry, lbl: Label)
    requires |pend| == |owner| && forall m :: 0 <= m < |pend| ==> EntryOk(prog, pend, owner, m)
    requires EntryOk(prog + [it], pend + [entry], owner + [lbl], |pend|)
    ensures forall m :: 0 <= m < |pend + [entry]| ==> EntryOk(prog + [it], pend + [entry], owner + [lbl], m)
  {
    hide EntryOk;
    forall m: nat | m < |pend| ensures EntryOk(prog + [it], pend + [entry], owner + [lbl], m) {
      EntryAppend(prog, pend, owner, it, entry, lbl, m);
    }
  }

  lemma OffsetsAppend(prog: Program, pend: seq<PendingEntry>, owner: seq<Label>, entry: PendingEntry)
    requires Chained(prog, pend, owner) && entry.patchOffset == 4 * |prog|
    ensures var more := pend + [entry];
            forall m, n :: 0 <= m < n < |more| ==> more[m].patchOffset < more[n].patchOffset
  {
    hide EntryOk;
    forall m: nat | m < |pend| ensures pend[m].patchOffset < 4 * |prog| {
      EntryBound(prog, pend, owner, m);
    }
  }

  lemma EntryNew(prog: Program, pend: seq<PendingEntry>, owner: seq<Label>, lbl: Label, k: Kind)
    requires |pend| == |owner|
    ensures EntryOk(prog + [Branch(lbl, k, None)],
                    pend + [PendingEntry(4 * |prog|, LastBefore(owner, lbl, |owner|))], owner + [lbl], |pend|)
  {
    hide LastBefore;
    LastBeforeExtend(owner, [lbl], lbl, |owner|);
  }

  /** An entry stays as it is when a word and an entry are added after it. */
  lemma EntryAppend(prog: Program, pend: seq<PendingEntry>, owner: seq<Label>,
                    it: Item<Label>, entry: PendingEntry, lbl: Label, m: nat)
    requires m < |pend| == |owner| && EntryOk(prog, pend, owner, m)
    ensures EntryOk(prog + [it], pend + [entry], owner + [lbl], m)
  {
    hide LastBefore;
    LastBeforeExtend(owner, [lbl], owner[m], m);
  }

  lemma EntryBound(prog: Program, pend: seq<PendingEntry>, owner: seq<Label>, m: nat)
    requires m < |pend| == |owner| && EntryOk(prog, pend, owner, m)
    ensures pend[m].patchOffset < 4 * |prog|
  {
  }

  /** What is recorded of a branch stays when another is added. */
  lemma BranchStays(it: Item<Label>, j: nat, pend: seq<PendingEntry>, led: Ledger,
                    entry: PendingEntry, lbl: Label, i: nat)
    requires BranchOk(it, j, pend, led) && j != i
    ensures BranchOk(it, j, pend + [entry], Ledger(led.owner + [lbl], led.entryOf[i := |pend|]))
  {
  }

  lemma BranchNew(it: Item<Label>, i: nat, pend: seq<PendingEntry>, led: Ledger, entry: PendingEntry)
    requires it.Branch? && it.kind.Valid() && it.target.None? && !it.dest.bound
    requires |pend| == |led.owner| && entry.patchOffset == 4 * i
    ensures BranchOk(it, i, pend + [entry], Ledger(led.owner + [it.dest], led.entryOf[i := |pend|]))
  {
  }

  /** Resolving branches does not change where they are or whom they wait for. */
  lemma ChainBind(prog: Program, pend: seq<PendingEntry>, owner: seq<Label>, l: Label, offset: int)
    requires Chained(prog, pend, owner)
    ensures Chained(BindAll(prog, l, offset), pend, owner)
  {
    hide LastBefore;
    forall k | 0 <= k < |pend| ensures EntryOk(BindAll(prog, l, offset), pend, owner, k) {
      assert EntryOk(prog, pend, owner, k);
    }
  }

  /** Words whose emission implies that r0 may no longer be zero. */
  predicate ClobbersR0(insn: nat) {
    insn == 0x3800_0000 || insn == 0x4E80_0421 || insn == 0x4E80_0021 || (insn / 0x400_0000 == 18 && insn % 2 == 1)
  }

  /** Of the label branches only bl counts as a call, before and after patching. */
  lemma CallsClobber(k: Kind, delta: int)
    requires k.Valid()
    ensures ClobbersR0(Placeholder(k)) == k.Bl?
    ensures ClobbersR0(Direct(k, delta)) == k.Bl?
  {
    hide Placeholder, Direct, ClobbersR0;
    PlaceholderFields(k);
    if k.Bc? {
      var bd := delta / 4 % 0x4000;
      DirectBc(k.bo, k.bi, delta);
      BcFields(k.bo, k.bi, bd);
      BcFields(k.bo, k.bi, 0);
      OtherOpcode(Placeholder(k));
      OtherOpcode(Direct(k, delta));
    } else {
      var li, lk := delta / 4 % 0x100_0000, if k.Bl? then 1 else 0;
      DirectB(k, delta);
      BFields(li, lk);
      BFields(0, lk);
      BranchOpcode(Placeholder(k));
      BranchOpcode(Direct(k, delta));
    }
  }

  /** The r0 mark, spelled out: li r0, 0, the two indirect calls, and branches with
      link; of all other words none. */
  lemma WordsThatClobber(w: nat)
    ensures w in {0x3800_0000, 0x4E80_0421, 0x4E80_0021} ==> ClobbersR0(w) && w / 0x400_0000 != 18
    ensures w / 0x400_0000 == 18 ==> ClobbersR0(w) == (w % 2 == 1)
    ensures w !in {0x3800_0000, 0x4E80_0421, 0x4E80_0021} && w / 0x400_0000 != 18 ==> !ClobbersR0(w)
  {
  }

  lemma OtherOpcode(w: nat)
    requires w / 0x400_0000 == 16
    ensures !ClobbersR0(w)
  {
  }

  lemma BranchOpcode(w: nat)
    requires w / 0x400_0000 == 18
    ensures ClobbersR0(w) == (w % 2 == 1)
  {
  }

  class Emitter {
    var buffer: array<byte>
    var offset: nat
    var r0MaybeDirty: bool
    var pendingBranches: seq<PendingEntry>

    /** What has been emitted so far. */
    ghost var program: Program
    ghost var ledger: Ledger
    /** The labels the branches and the pending entries refer to. */
    ghost var labels: set<Label>

    ghost predicate Linked()
      reads this, labels
    {
      && Chained(program, pendingBranches, ledger.owner)
      && Tracked(program, pendingBranches, ledger, labels)
    }

    ghost predicate Valid()
      reads this, buffer, labels
    {
      offset == 4 * |program| && Holds(buffer, program) && Linked() && InReach(program)
    }

    /** A label that may be used: known to this emitter, or never used at all. */
    ghost predicate Usable(l: Label)
      reads this, l
    {
      l in labels || (!l.bound && l.pendingHead == -1)
    }

    /** The label's head lies past the pending branches: it was used before they were
        dropped and is being reused. */
    ghost predicate Stale(l: Label)
      reads this, l
    {
      l.pendingHead >= |pendingBranches|
    }

    lemma UsableIsNotStale(l: Label)
      requires Valid() && Usable(l)
      ensures !Stale(l)
    {
    }

    constructor (buf: array<byte>)
      ensures Valid() && buffer == buf && program == [] && labels == {} && !r0MaybeDirty
    {
      buffer := buf;
      offset := 0;
      r0MaybeDirty := false;
      pendingBranches := [];
      program, ledger, labels := [], Ledger([], map[]), {};
    }

    /** Writes a word that stands for `it` at the cursor. */
    method Put(insn: nat, ghost prog: Program, ghost it: Item<Label>)
      requires offset == 4 * |prog| && Holds(buffer, prog)
      requires offset + 4 <= buffer.Length && insn < WORD && WordOf(it, offset) == insn
      modifies this`offset, this`r0MaybeDirty, buffer
      ensures offset == old(offset) + 4 && Holds(buffer, prog + [it])
      ensures r0MaybeDirty == (old(r0MaybeDirty) || ClobbersR0(insn))
    {
      hide WordOf, ClobbersR0;
      if ClobbersR0(insn) {
        r0MaybeDirty := true;
      }
      StoreNext(buffer, offset, insn, prog, it);
      offset := offset + 4;
    }

    /** Appends one word. */
    method Emit32(insn: nat)
      requires Valid() && offset + 4 <= buffer.Length && insn < WORD
      modifies this`offset, this`r0MaybeDirty, this`program, buffer
      ensures Valid()
      ensures program == old(program) + [Raw(insn)]
      ensures r0MaybeDirty == (old(r0MaybeDirty) || ClobbersR0(insn))
      ensures insn in {0x3800_0000, 0x4E80_0421, 0x4E80_0021} ==> r0MaybeDirty
      ensures insn / 0x400_0000 == 18 ==> r0MaybeDirty == (old(r0MaybeDirty) || insn % 2 == 1)
      ensures insn !in {0x3800_0000, 0x4E80_0421, 0x4E80_0021} && insn / 0x400_0000 != 18 ==>
                r0MaybeDirty == old(r0MaybeDirty)
    {
      hide ClobbersR0, EntryOk, BranchOk, LastBefore, InReach;
      WordsThatClobber(insn);
      AppendInReach(program, Raw(insn));
      Put(insn, program, Raw(insn));
      LinksAppend(program, Raw(insn), pendingBranches, ledger, labels);
      program := program + [Raw(insn)];
    }

    /** Records a forward branch at the cursor on the front of the label's chain. */
    method AddPendingBranch(lbl: Label, ghost k: Kind)
      requires Linked() && offset == 4 * |program| && k.Valid() && Usable(lbl) && !lbl.bound
      modifies this`pendingBranches, this`program, this`ledger, this`labels, lbl`pendingHead
      ensures Linked()
      ensures program == old(program) + [Branch(lbl, k, None)]
      ensures labels == old(labels) + {lbl}
      ensures |pendingBranches| == old(|pendingBranches|) + 1 && old(pendingBranches) <= pendingBranches
    {
      hide LastBefore, EntryOk, BranchOk;
      var n := |pendingBranches|;
      ghost var i := |program|;
      ChainAppend(program, pendingBranches, ledger.owner, lbl, k);
      HeadsAppend(ledger.owner, ledger.owner + [lbl], lbl);
      ghost var entry := PendingEntry(offset, lbl.pendingHead);
      forall j | 0 <= j < |program| && program[j].Branch?
        ensures BranchOk(program[j], j, pendingBranches + [entry], Ledger(ledger.owner + [lbl], ledger.entryOf[i := n]))
      {
        BranchStays(program[j], j, pendingBranches, ledger, entry, lbl, i);
      }
      BranchNew(Branch(lbl, k, None), i, pendingBranches, ledger, entry);
      assert lbl !in labels ==> LastBefore(ledger.owner, lbl, |ledger.owner|) == -1;
      pendingBranches := pendingBranches + [PendingEntry(offset, lbl.pendingHead)];
      lbl.pendingHead := n;
      ledger := Ledger(ledger.owner + [lbl], ledger.entryOf[i := n]);
      program := program + [Branch(lbl, k, None)];
      labels := labels + {lbl};
    }

    /** Emits a branch to a label: with its distance when the label is bound, and
        otherwise as a placeholder recorded for patching. Refuses a distance the
        branch cannot span. */
    method EmitBranch(lbl: Label, k: Kind) returns (ok: bool)
      requires Valid() && Usable(lbl) && k.Valid() && offset + 4 <= buffer.Length
      modifies this, buffer, lbl`pendingHead
      ensures Valid() && buffer == old(buffer)
      ensures ok == (lbl.bound ==> Reaches(k, Delta(lbl.offset, old(offset))))
      ensures ok <==> (lbl.bound ==> Encodable(k, Delta(lbl.offset, old(offset))))
      ensures program == old(program) +
        if ok then [Branch(lbl, k, if lbl.bound then Some(lbl.offset) else None)] else []
      ensures labels == old(labels) + if ok then {lbl} else {}
      ensures r0MaybeDirty == (old(r0MaybeDirty) || (ok && k.Bl?))
    {
      hide EntryOk, LastBefore, Placeholder, Direct, Delta, Reaches, ClobbersR0, InReach, Encodable;
      ghost var before := program;
      ReachesIffEncodable(k, Delta(lbl.offset, offset));
      AppendInReach(program, Branch(lbl, k, if lbl.bound then Some(lbl.offset) else None));
      if lbl.bound {
        var delta := Delta(lbl.offset, offset);
        if !Reaches(k, delta) {
          return false;
        }
        PatchedIsDirect(k, delta);
        PatchedDecodes(k, delta);
        CallsClobber(k, delta);
        ghost var it: Item<Label> := Branch(lbl, k, Some(lbl.offset));
        Put(Direct(k, delta), program, it);
        LinksAppend(program, it, pendingBranches, ledger, labels);
        program := program + [it];
      } else {
        AddPendingBranch(lbl, k);
        PlaceholderFields(k);
        CallsClobber(k, 0);
        Put(Placeholder(k), before, Branch(lbl, k, None));
      }
      return true;
    }

    /** Walks a label's chain from its head and patches every branch on it. The
        walk visits exactly the branches waiting for the label, latest first, and
        fails exactly when one of them cannot span its distance. */
    method PatchChain(lbl: Label) returns (ok: bool)
      requires Holds(buffer, program) && Chained(program, pendingBranches, ledger.owner)
      requires lbl.pendingHead == -1 || lbl.pendingHead == LastBefore(ledger.owner, lbl, |ledger.owner|)
      requires lbl.pendingHead == -1 ==> forall i :: 0 <= i < |program| ==> !Awaits(program[i], lbl)
      requires forall k :: 0 <= k <= lbl.pendingHead ==>
        Waiting(program, program, pendingBranches, ledger.owner, k, lbl)
      requires forall i :: 0 <= i < |program| && Awaits(program[i], lbl) ==>
          && program[i].kind.Valid()
          && i in ledger.entryOf && ledger.entryOf[i] < |ledger.owner|
          && ledger.owner[ledger.entryOf[i]] == lbl && pendingBranches[ledger.entryOf[i]].patchOffset == 4 * i
      modifies buffer, lbl`pendingHead
      ensures ok == forall i :: 0 <= i < |program| && Awaits(program[i], lbl) ==>
          Reaches(program[i].kind, Delta(lbl.offset, 4 * i))
      ensures ok ==> Holds(buffer, BindAll(program, lbl, lbl.offset)) && lbl.pendingHead == -1
    {
      hide LastBefore, Reaches, Delta, Holds;
      ghost var cur := program;
      ghost var off := lbl.offset;
      var idx := lbl.pendingHead;
      while idx >= 0
        invariant -1 <= idx <= lbl.pendingHead < |pendingBranches|
        invariant idx >= 0 ==> ledger.owner[idx] == lbl
        invariant |cur| == |program| && Holds(buffer, cur)
        invariant forall k :: 0 <= k <= idx ==> Waiting(cur, program, pendingBranches, ledger.owner, k, lbl)
        invariant forall k :: idx < k <= lbl.pendingHead ==>
            Patched(cur, program, pendingBranches, ledger.owner, k, lbl, off)
        invariant forall i :: 0 <= i < |cur| ==> cur[i] == program[i] || cur[i] == BindItem(program[i], lbl, off)
        invariant lbl.pendingHead == old(lbl.pendingHead) && lbl.offset == off
        decreases idx
      {
        assert idx < |pendingBranches|;
        var entry := pendingBranches[idx];
        ghost var i := entry.patchOffset / 4;
        assert EntryOk(program, pendingBranches, ledger.owner, idx);
        assert Waiting(cur, program, pendingBranches, ledger.owner, idx, lbl);
        ok := PatchItem(buffer, entry.patchOffset, lbl.offset, cur, i);
        if !ok {
          return;
        }
        PatchStep(cur, program, pendingBranches, ledger.owner, idx, lbl.pendingHead, lbl, off);
        cur := cur[i := cur[i].(target := Some(off))];
        idx := entry.next;
      }
      forall i | 0 <= i < |program|
        ensures cur[i] == BindItem(program[i], lbl, off)
        ensures Awaits(program[i], lbl) ==> Reaches(program[i].kind, Delta(off, 4 * i))
      {
        if Awaits(program[i], lbl) {
          ghost var k := ledger.entryOf[i];
          assert k <= lbl.pendingHead;
          assert Patched(cur, program, pendingBranches, ledger.owner, k, lbl, off);
        }
      }
      assert cur == BindAll(program, lbl, off);
      lbl.pendingHead := -1;
      ok := true;
    }

    /** The label's chain, unless its head is stale, is as recorded. */
    ghost predicate ChainRecorded(lbl: Label)
      reads this, buffer, lbl
    {
      && Holds(buffer, program) && Chained(program, pendingBranches, ledger.owner)
      && (lbl.pendingHead == -1 || lbl.pendingHead == LastBefore(ledger.owner, lbl, |ledger.owner|))
      && (lbl.pendingHead == -1 ==> forall i :: 0 <= i < |program| ==> !Awaits(program[i], lbl))
      && (forall k :: 0 <= k <= lbl.pendingHead ==> Waiting(program, program, pendingBranches, ledger.owner, k, lbl))
      && (forall i :: 0 <= i < |program| && Awaits(program[i], lbl) ==>
            && program[i].kind.Valid()
            && i in ledger.entryOf && ledger.entryOf[i] < |ledger.owner|
            && ledger.owner[ledger.entryOf[i]] == lbl && pendingBranches[ledger.entryOf[i]].patchOffset == 4 * i)
    }

    /** Patches what waits for a label. A stale head is refused before anything is
        written; later links of a chain only descend, so none of them can be stale. */
    method PatchPending(lbl: Label) returns (ok: bool)
      requires Stale(lbl) || ChainRecorded(lbl)
      modifies buffer, lbl`pendingHead
      ensures ok == (!old(Stale(lbl)) && forall i :: 0 <= i < |program| && Awaits(program[i], lbl) ==>
          Reaches(program[i].kind, Delta(lbl.offset, 4 * i)))
      ensures ok ==> Holds(buffer, BindAll(program, lbl, lbl.offset)) && lbl.pendingHead == -1
      ensures old(Stale(lbl)) ==> unchanged(buffer) && unchanged(lbl)
    {
      hide LastBefore, Reaches, Delta, Holds;
      if lbl.pendingHead >= |pendingBranches| {
        return false;
      }
      ok := PatchChain(lbl);
    }

    /** The fixups on an unbound label's chain all wait for it. */
    lemma ChainWaits(lbl: Label)
      requires Valid() && Usable(lbl)
      ensures forall k :: 0 <= k <= lbl.pendingHead ==> Waiting(program, program, pendingBranches, ledger.owner, k, lbl)
    {
      hide LastBefore, Holds, InReach;
      forall k | 0 <= k <= lbl.pendingHead
        ensures Waiting(program, program, pendingBranches, ledger.owner, k, lbl)
      {
        assert EntryOk(program, pendingBranches, ledger.owner, k);
        ghost var i := pendingBranches[k].patchOffset / 4;
        assert BranchOk(program[i], i, pendingBranches, ledger);
      }
    }

    /** Binds a label to an offset and patches the branches waiting for it; refuses a
        stale label before writing any word. */
    method BindAt(lbl: Label, target: int) returns (ok: bool)
      requires Valid() && (Usable(lbl) || Stale(lbl))
      modifies buffer, lbl, this`program, this`labels
      ensures lbl.bound && lbl.offset == target
      ensures ok == (!old(Stale(lbl)) && forall i :: 0 <= i < |old(program)| && Awaits(old(program)[i], lbl) ==>
          Reaches(old(program)[i].kind, Delta(target, 4 * i)))
      ensures old(Stale(lbl)) ==> unchanged(buffer)
      ensures ok ==> Valid() && program == BindAll(old(program), lbl, target) && labels == old(labels) + {lbl}
      ensures ok ==> forall i :: 0 <= i < |old(program)| && Awaits(old(program)[i], lbl) ==>
          Goes(buffer, 4 * i, old(program)[i].kind, target)
    {
      hide LastBefore, Reaches, Delta, Holds, InReach, Goes;
      if lbl.pendingHead >= |pendingBranches| {
        lbl.offset := target;
        lbl.bound := true;
        ok := PatchPending(lbl);
        return;
      }
      BindInReach(program, lbl, target);
      ChainWaits(lbl);
      ChainBind(program, pendingBranches, ledger.owner, lbl, target);
      lbl.offset := target;
      lbl.bound := true;
      labels := labels + {lbl};
      ok := PatchPending(lbl);
      ghost var after := BindAll(program, lbl, target);
      forall i | 0 <= i < |after| && after[i].Branch?
        ensures after[i].dest in labels && BranchOk(after[i], i, pendingBranches, ledger)
      {
        assert old(BranchOk(program[i], i, pendingBranches, ledger));
      }
      if ok {
        ResolvedGo(buffer, program, lbl, target);
      }
      program := after;
    }

    /** Binds a label to the cursor. */
    method Bind(lbl: Label) returns (ok: bool)
      requires Valid() && (Usable(lbl) || Stale(lbl))
      modifies buffer, lbl, this`program, this`labels
      ensures lbl.bound && lbl.offset == offset
      ensures ok == (!old(Stale(lbl)) && forall i :: 0 <= i < |old(program)| && Awaits(old(program)[i], lbl) ==>
          Reaches(old(program)[i].kind, Delta(offset, 4 * i)))
      ensures old(Stale(lbl)) ==> unchanged(buffer)
      ensures ok ==> Valid() && program == BindAll(old(program), lbl, offset) && labels == old(labels) + {lbl}
      ensures ok ==> forall i :: 0 <= i < |old(program)| && Awaits(old(program)[i], lbl) ==>
          Goes(buffer, 4 * i, old(program)[i].kind, offset)
    {
      ok := BindAt(lbl, offset);
    }

    /** Points the emitter at a copy of what it has emitted. Labels, cursor and
        pending branches stay as they are. */
    method RebaseBuffer(buf: array<byte>)
      requires Valid() && offset <= buf.Length
      requires forall j :: 0 <= j < offset ==> buf[j] == buffer[j]
      modifies this`buffer
      ensures Valid() && buffer == buf
    {
      hide LastBefore, WordOf, FromBytes, InReach;
      ghost var was := buffer;
      buffer := buf;
      forall i | 0 <= i < |program| ensures WordAt(buf, 4 * i) == WordOf(program[i], 4 * i) {
        assert WordAt(buf, 4 * i) == WordAt(was, 4 * i);
      }
    }

    /** Forgets the pending branches: what is still unresolved stays as it is for
        good, and only bound labels may be used again. */
    method ClearPendingBranches()
      requires Valid()
      modifies this`pendingBranches, this`ledger, this`labels, this`program
      ensures Valid() && pendingBranches == []
      ensures program == Abandon(old(program))
      ensures labels == set l | l in old(labels) && l.bound
    {
      hide LastBefore, FromBytes, InReach;
      pendingBranches := [];
      ledger := Ledger([], map[]);
      labels := set l | l in labels && l.bound;
      AbandonInReach(program);
      program := Abandon(program);
    }
  }

  /** Unresolved branches become the words they currently are. */
  ghost function Abandon(prog: Program): Program {
    seq(|prog|, i requires 0 <= i < |prog| =>
      if prog[i].Branch? && prog[i].target.None? then Raw(Placeholder(prog[i].kind)) else prog[i])
  }

  lemma AbandonInReach(prog: Program)
    requires InReach(prog)
    ensures InReach(Abandon(prog))
  {
    hide Reaches, Delta;
  }

  /** The word at this place is a branch of that kind which the processor takes to
      be as far as the target. */
  ghost predicate Goes(b: array<byte>, at: nat, k: Kind, target: int)
    reads b
  {
    at + 4 <= b.Length && WordAt(b, at) >= 0 && DecodeBranch(WordAt(b, at)) == Some((k, Delta(target, at)))
  }

  /** A resolved branch in reach goes to its target. */
  lemma BranchGoes(b: array<byte>, prog: Program, i: nat)
    requires Holds(b, prog) && i < |prog| && prog[i].Branch? && prog[i].target.Some? && prog[i].kind.Valid()
    requires Reaches(prog[i].kind, Delta(prog[i].target.value, 4 * i))
    ensures Goes(b, 4 * i, prog[i].kind, prog[i].target.value)
  {
    hide Reaches, Delta, Direct, Patch, Placeholder, DecodeBranch, FromBytes;
    var delta := Delta(prog[i].target.value, 4 * i);
    assert WordAt(b, 4 * i) == WordOf(prog[i], 4 * i) == Direct(prog[i].kind, delta);
    PatchedIsDirect(prog[i].kind, delta);
    PatchedDecodes(prog[i].kind, delta);
  }

  /** The branches a bind has resolved go to its target. */
  lemma ResolvedGo(b: array<byte>, prog: Program, l: Label, target: int)
    requires Holds(b, BindAll(prog, l, target)) && InReach(BindAll(prog, l, target))
    requires forall i :: 0 <= i < |prog| && Awaits(prog[i], l) ==> prog[i].kind.Valid()
    ensures forall i :: 0 <= i < |prog| && Awaits(prog[i], l) ==> Goes(b, 4 * i, prog[i].kind, target)
  {
    hide Reaches, Delta, Goes, Holds, WordOf;
    var after := BindAll(prog, l, target);
    forall i | 0 <= i < |prog| && Awaits(prog[i], l) ensures Goes(b, 4 * i, prog[i].kind, target) {
      assert after[i] == BindItem(prog[i], l, target);
      BranchGoes(b, after, i);
    }
  }

  /** In a buffer below two gibibytes the branch goes exactly to the target. */
  lemma GoesExactly(b: array<byte>, at: nat, k: Kind, target: int)
    requires Goes(b, at, k, target) && 0 <= target < 0x8000_0000 && at < 0x8000_0000
    ensures DecodeBranch(WordAt(b, at)) == Some((k, target - at))
  {
    DeltaExact(target, at);
  }

  /** If entry k is the label's, its branch is untouched and awaits the label. */
  ghost predicate Waiting(cur: Program, prog: Program, pend: seq<PendingEntry>, owner: seq<Label>, k: nat, l: Label) {
    && k < |pend| == |owner|
    && (owner[k] == l ==>
          var i := pend[k].patchOffset / 4;
          i < |prog| == |cur| && cur[i] == prog[i] && Awaits(prog[i], l))
  }

  /** If entry k is the label's, its branch has been patched. */
  ghost predicate Patched(cur: Program, prog: Program, pend: seq<PendingEntry>, owner: seq<Label>,
                          k: nat, l: Label, offset: int)
  {
    && k < |pend| == |owner|
    && (owner[k] == l ==>
          var i := pend[k].patchOffset / 4;
          && i < |prog| == |cur| && Awaits(prog[i], l)
          && cur[i] == BindItem(prog[i], l, offset) && Reaches(prog[i].kind, Delta(offset, 4 * i)))
  }

  /** One step of the walk: patching the branch of entry `idx` and following its
      link leaves every entry of the label before the new position waiting and
      every one after it patched. */
  lemma PatchStep(cur: Program, prog: Program, pend: seq<PendingEntry>, owner: seq<Label>,
                  idx: nat, head: nat, l: Label, offset: int)
    requires Chained(prog, pend, owner) && idx <= head < |pend| && owner[idx] == l
    requires forall k :: 0 <= k <= idx ==> Waiting(cur, prog, pend, owner, k, l)
    requires forall k :: idx < k <= head ==> Patched(cur, prog, pend, owner, k, l, offset)
    requires Waiting(cur, prog, pend, owner, idx, l)
    requires Reaches(prog[pend[idx].patchOffset / 4].kind, Delta(offset, pend[idx].patchOffset))
    ensures var i, next := pend[idx].patchOffset / 4, pend[idx].next;
            var cur' := cur[i := cur[i].(target := Some(offset))];
            && -1 <= next < idx && (next >= 0 ==> owner[next] == l)
            && (forall k :: 0 <= k <= next ==> Waiting(cur', prog, pend, owner, k, l))
            && (forall k :: next < k <= head ==> Patched(cur', prog, pend, owner, k, l, offset))
  {
    hide LastBefore, Reaches, Delta;
    assert EntryOk(prog, pend, owner, idx);
    var i, next := pend[idx].patchOffset / 4, pend[idx].next;
    var cur' := cur[i := cur[i].(target := Some(offset))];
    forall k | 0 <= k <= head && k != idx
      ensures pend[k].patchOffset / 4 != i
    {
      assert EntryOk(prog, pend, owner, k);
    }
    forall k | 0 <= k <= next ensures Waiting(cur', prog, pend, owner, k, l) {
      assert Waiting(cur, prog, pend, owner, k, l);
    }
    forall k | next < k <= head ensures Patched(cur', prog, pend, owner, k, l, offset) {
      if k > idx { assert Patched(cur, prog, pend, owner, k, l, offset); }
    }
  }

  /** A branch that is still waiting for a label. */
  ghost predicate Awaits(it: Item<Label>, l: Label) {
    it.Branch? && it.dest == l && it.target.None?
  }

  // ----- the chains, as the walk sees them

  /** The indices met by following the links from `idx`. */
  ghost function Chain(pend: seq<PendingEntry>, idx: int): seq<int>
    decreases idx
  {
    if 0 <= idx < |pend| && pend[idx].next < idx then [idx] + Chain(pend, pend[idx].next) else []
  }

  /** From a label's head the links lead through exactly that label's entries,
      each once, in strictly descending order. */
  lemma {:induction false} ChainIsOwned(prog: Program, pend: seq<PendingEntry>, owner: seq<Label>, l: Label, n: int)
    requires Chained(prog, pend, owner) && n <= |owner|
    ensures var c := Chain(pend, LastBefore(owner, l, n));
            && (forall k :: k in c <==> 0 <= k < n && owner[k] == l)
            && (forall i, j :: 0 <= i < j < |c| ==> c[i] > c[j])
    decreases n
  {
    var h := LastBefore(owner, l, n);
    if h >= 0 {
      assert EntryOk(prog, pend, owner, h);
      ChainIsOwned(prog, pend, owner, l, h);
      var rest := Chain(pend, LastBefore(owner, l, h));
      var c := Chain(pend, h);
      assert c == [h] + rest;
      forall k ensures k in c <==> 0 <= k < n && owner[k] == l {
        assert k in c <==> k == h || k in rest;
      }
      forall i, j | 0 <= i < j < |c| ensures c[i] > c[j] {
        assert c[j] == rest[j - 1] && rest[j - 1] in rest;
      }
    }
  }

  /** Chains of different labels share no entry. */
  lemma ChainsDisjoint(prog: Program, pend: seq<PendingEntry>, owner: seq<Label>, l1: Label, l2: Label)
    requires Chained(prog, pend, owner) && l1 != l2
    ensures forall k :: k in Chain(pend, LastBefore(owner, l1, |owner|)) ==>
              k !in Chain(pend, LastBefore(owner, l2, |owner|))
  {
    ChainIsOwned(prog, pend, owner, l1, |owner|);
    ChainIsOwned(prog, pend, owner, l2, |owner|);
  }

  // ----- copying and binding

  /** Copies what has been emitted so far. */
  method CopyOut(e: Emitter, dst: array<byte>)
    requires e.offset <= dst.Length && e.offset <= e.buffer.Length && e.buffer != dst
    modifies dst
    ensures forall j :: 0 <= j < e.offset ==> dst[j] == e.buffer[j]
  {
    for n := 0 to e.offset
      invariant forall j :: 0 <= j < n ==> dst[j] == e.buffer[j]
    {
      dst[n] := e.buffer[n];
    }
  }

  /** Staged use: copy out, rebase, then bind; the bind patches the copy. */
  method CopyThenBind(e: Emitter, lbl: Label, target: int, dst: array<byte>) returns (ok: bool)
    requires e.Valid() && e.Usable(lbl) && e.offset <= dst.Length && e.buffer != dst
    modifies e, dst, lbl
    ensures ok == forall i :: 0 <= i < |old(e.program)| && Awaits(old(e.program)[i], lbl) ==>
        Reaches(old(e.program)[i].kind, Delta(target, 4 * i))
    ensures ok ==> e.Valid() && e.buffer == dst && Holds(dst, BindAll(old(e.program), lbl, target))
  {
    CopyOut(e, dst);
    e.RebaseBuffer(dst);
    ok := e.BindAt(lbl, target);
  }

  /** The other order, bind in the staging buffer and then copy: the same
      outcome and the same words in the destination. */
  method BindThenCopy(e: Emitter, lbl: Label, target: int, dst: array<byte>) returns (ok: bool)
    requires e.Valid() && e.Usable(lbl) && e.offset <= dst.Length && e.buffer != dst
    modifies e, e.buffer, dst, lbl
    ensures ok == forall i :: 0 <= i < |old(e.program)| && Awaits(old(e.program)[i], lbl) ==>
        Reaches(old(e.program)[i].kind, Delta(target, 4 * i))
    ensures ok ==> e.Valid() && e.buffer == dst && Holds(dst, BindAll(old(e.program), lbl, target))
  {
    ok := e.BindAt(lbl, target);
    if ok {
      CopyOut(e, dst);
      e.RebaseBuffer(dst);
    }
  }

  // ----- whole runs

  ghost predicate FreshLabel(l: Label)
    reads l
  {
    !l.bound && l.pendingHead == -1
  }

  ghost function LabelsOf(ops: seq<Op<Label>>): set<Label> {
    set i | 0 <= i < |ops| && !ops[i].EmitWord? :: ops[i].dest
  }

  predicate OpOk(op: Op<Label>) {
    (op.EmitWord? ==> op.word < WORD) && (op.BranchTo? ==> op.kind.Valid())
  }

  /** The operations of a script in turn: exactly when every branch of the result can
      span its distance, the emitter ends up with the result. */
  method RunOps(e: Emitter, ops: seq<Op<Label>>) returns (ok: bool)
    requires e.Valid() && e.program == [] && e.labels == {} && 4 * |ops| <= e.buffer.Length
    requires forall i :: 0 <= i < |ops| ==> OpOk(ops[i])
    requires forall l :: l in LabelsOf(ops) ==> FreshLabel(l)
    modifies e, e.buffer, LabelsOf(ops)
    ensures ok <==> InReach(OnePass(ops).prog)
    ensures ok ==> e.Valid() && e.buffer == old(e.buffer) && e.program == OnePass(ops).prog
  {
    hide OnePass, Holds, Chained, Tracked, Reaches, Delta, InReach, WordOf, ClobbersR0, Goes, Encodable;
    ghost var all := LabelsOf(ops);
    OnePassEmpty();
    assert ops[..0] == [];
    ok := true;
    for n := 0 to |ops|
      invariant e.Valid() && e.buffer == old(e.buffer) && e.labels <= all
      invariant e.program == OnePass(ops[..n]).prog && |e.program| <= n && ok && InReach(e.program)
      invariant forall l :: l in all ==> l.bound == (l in OnePass(ops[..n]).env)
      invariant forall l :: l in all && l.bound ==> l.offset == OnePass(ops[..n]).env[l] && l in e.labels
      invariant forall l :: l in all && l !in e.labels ==> FreshLabel(l)
    {
      OnePassStep(ops, n);
      ScriptReach(ops, n);
      assert OpOk(ops[n]);
      match ops[n]
      case EmitWord(w) =>
        e.Emit32(w);
      case BranchTo(l, k) =>
        assert l in all;
        ok := e.EmitBranch(l, k);
        if !ok { return; }
      case BindLabel(l) =>
        assert l in all;
        e.UsableIsNotStale(l);
        ok := e.Bind(l);
        if !ok { return; }
    }
    assert ops[..|ops|] == ops;
  }

  /** Runs a whole script of emits, branches and binds on a new emitter. It succeeds
      exactly when every branch of the result can span its distance, and then the
      buffer holds what a two-pass assembler would have produced for the script. */
  method RunScript(e: Emitter, ops: seq<Op<Label>>) returns (ok: bool)
    requires e.Valid() && e.program == [] && e.labels == {} && 4 * |ops| <= e.buffer.Length
    requires forall i :: 0 <= i < |ops| ==> OpOk(ops[i])
    requires forall l :: l in LabelsOf(ops) ==> FreshLabel(l)
    modifies e, e.buffer, LabelsOf(ops)
    ensures ok <==> InReach(OnePass(ops).prog)
    ensures ok <==> Expressible(OnePass(ops).prog)
    ensures ok ==> e.Valid() && e.buffer == old(e.buffer) && e.program == OnePass(ops).prog
    ensures BoundOnce(ops) ==> (ok <==> InReach(TwoPass(ops)))
    ensures ok && BoundOnce(ops) ==> Holds(e.buffer, TwoPass(ops))
    ensures ok ==> forall i :: 0 <= i < |e.program| && Resolved(e.program[i]) ==>
        Goes(e.buffer, 4 * i, e.program[i].kind, e.program[i].target.value)
    ensures ok && e.buffer.Length < 0x8000_0000 ==> forall i :: 0 <= i < |e.program| && Resolved(e.program[i]) ==>
        WordAt(e.buffer, 4 * i) >= 0 &&
        DecodeBranch(WordAt(e.buffer, 4 * i)) == Some((e.program[i].kind, e.program[i].target.value - 4 * i))
  {
    hide OnePass, Chained, Tracked, InReach, BoundOnce, TwoPass, WordOf, Goes, DecodeBranch, Expressible;
    ScriptExpressible(ops);
    if BoundOnce(ops) { OnePassIsTwoPass(ops); }
    ok := RunOps(e, ops);
    if ok { ScriptGoes(e, ops); }
  }

  lemma ScriptExpressible(ops: seq<Op<Label>>)
    requires forall i :: 0 <= i < |ops| ==> OpOk(ops[i])
    ensures InReach(OnePass(ops).prog) <==> Expressible(OnePass(ops).prog)
  {
    hide OnePass, InReach, Expressible, KindsValid;
    forall i | 0 <= i < |ops| && ops[i].BranchTo? ensures ops[i].kind.Valid() {
      assert OpOk(ops[i]);
    }
    OnePassKinds(ops);
    InReachIffExpressible(OnePass(ops).prog);
  }

  ghost predicate Resolved(it: Item<Label>) { it.Branch? && it.target.Some? }

  /** When a script has been emitted, every resolved branch goes to its target. */
  lemma ScriptGoes(e: Emitter, ops: seq<Op<Label>>)
    requires e.Valid() && e.program == OnePass(ops).prog
    ensures forall i :: 0 <= i < |e.program| && Resolved(e.program[i]) ==>
        Goes(e.buffer, 4 * i, e.program[i].kind, e.program[i].target.value)
    ensures e.buffer.Length < 0x8000_0000 ==> forall i :: 0 <= i < |e.program| && Resolved(e.program[i]) ==>
        WordAt(e.buffer, 4 * i) >= 0 &&
        DecodeBranch(WordAt(e.buffer, 4 * i)) == Some((e.program[i].kind, e.program[i].target.value - 4 * i))
  {
    hide OnePass, DecodeBranch, Reaches, Delta, WordOf, FromBytes, Chained;
    OnePassTargets(ops);
    forall i | 0 <= i < |e.program| && Resolved(e.program[i])
      ensures Goes(e.buffer, 4 * i, e.program[i].kind, e.program[i].target.value)
      ensures e.buffer.Length < 0x8000_0000 ==>
        DecodeBranch(WordAt(e.buffer, 4 * i)) == Some((e.program[i].kind, e.program[i].target.value - 4 * i))
    {
      assert BranchOk(e.program[i], i, e.pendingBranches, e.ledger);
      BranchGoes(e.buffer, e.program, i);
      assert Within(e.program[i].target.value, |e.program|);
      if e.buffer.Length < 0x8000_0000 {
        GoesExactly(e.buffer, 4 * i, e.program[i].kind, e.program[i].target.value);
      }
    }
  }

  lemma OnePassEmpty()
    ensures OnePass<Label>([]) == Asm([], map[]) && InReach(OnePass<Label>([]).prog)
  {
  }

  /** The script stays in reach through operation n exactly when the operation
      does, and is out of reach for good when it does not. */
  lemma ScriptReach(ops: seq<Op<Label>>, n: nat)
    requires n < |ops| && InReach(OnePass(ops[..n]).prog)
    ensures InReach(OnePass(ops[..n + 1]).prog) <==> OpInReach(ops[n], OnePass(ops[..n]))
    ensures !OpInReach(ops[n], OnePass(ops[..n])) ==> !InReach(OnePass(ops).prog)
  {
    hide InReach, OpInReach, OnePass;
    assert ops[..n + 1][..n] == ops[..n];
    OnePassReach(ops[..n + 1]);
    if InReach(OnePass(ops).prog) { ReachOfPrefix(ops, n + 1); }
  }

  /** One more operation of a script. */
  lemma OnePassStep(ops: seq<Op<Label>>, n: nat)
    requires n < |ops|
    ensures var a, b := OnePass(ops[..n]), OnePass(ops[..n + 1]);
            match ops[n]
            case EmitWord(w) => b == Asm(a.prog + [Raw(w)], a.env)
            case BranchTo(l, k) => b == Asm(a.prog + [Branch(l, k, Lookup(a.env, l))], a.env)
            case BindLabel(l) => b == Asm(BindAll(a.prog, l, 4 * |a.prog|), a.env[l := 4 * |a.prog|])
  {
    assert ops[..n + 1][..n] == ops[..n];
  }
}
