/** The fixed-point instructions the immediate loader uses: their 32-bit
    encodings as the emitter builds them, and what they do, after Power ISA 2.07
    Book I (D-form and MD-form instruction formats, rotate and mask operations). */
module PowerIsa {
  import opened Bits

  const TWO16: nat := 0x1_0000
  const TWO32: nat := 0x1_0000_0000
  const TWO63: nat := 0x8000_0000_0000_0000
  const TWO64: nat := 0x1_0000_0000_0000_0000

  /** The sixteen-bit field holding a signed immediate. */
  function Field16(si: int): nat { si % TWO16 }

  /** Sign extension of a sixteen-bit field. */
  function Exts16(f: nat): int { if f < 0x8000 then f else f - TWO16 }

  // ----- encodings

  /** D-form: op(6) | RT/RS(5) | RA(5) | D/SI/UI(16). */
  function EncodeD(op: nat, rt: nat, ra: nat, d: nat): nat {
    BitOr(BitOr(BitOr(op * 0x400_0000, rt * 0x20_0000), ra * TWO16), d)
  }

  /** MD-form: op 30 | RS | RA | sh[low 5] | m[low 5] | m[high] | XO(3) | sh[high] | Rc. */
  function EncodeMD(rs: nat, ra: nat, sh: nat, m: nat, xo: nat, rc: nat): nat {
    var shLow, shHigh := sh % 32, sh / 32 % 2;
    var mLow, mHigh := m % 32, m / 32 % 2;
    BitOr(BitOr(BitOr(BitOr(BitOr(BitOr(BitOr(BitOr(
      30 * 0x400_0000, rs * 0x20_0000), ra * TWO16), shLow * 0x800),
      mLow * 0x40), mHigh * 0x20), xo * 4), shHigh * 2), rc)
  }

  function Addi(rt: nat, ra: nat, si: int): nat { EncodeD(14, rt, ra, Field16(si)) }

  function Addis(rt: nat, ra: nat, si: int): nat { EncodeD(15, rt, ra, Field16(si)) }

  function Li(rt: nat, si: int): nat { Addi(rt, 0, si) }

  function Lis(rt: nat, si: int): nat { Addis(rt, 0, si) }

  function Ori(ra: nat, rs: nat, ui: nat): nat { EncodeD(24, rs, ra, ui) }

  function Oris(ra: nat, rs: nat, ui: nat): nat { EncodeD(25, rs, ra, ui) }

  function Rldicl(ra: nat, rs: nat, sh: nat, mb: nat): nat { EncodeMD(rs, ra, sh, mb, 0, 0) }

  function Rldicr(ra: nat, rs: nat, sh: nat, me: nat): nat { EncodeMD(rs, ra, sh, me, 1, 0) }

  function Rldic(ra: nat, rs: nat, sh: nat, mb: nat): nat { EncodeMD(rs, ra, sh, mb, 2, 0) }

  function Sldi(ra: nat, rs: nat, n: nat): nat
    requires n < 64
  {
    Rldicr(ra, rs, n, 63 - n)
  }

  function Clrldi(ra: nat, rs: nat, n: nat): nat { Rldicl(ra, rs, 0, n) }

  // ----- meaning

  datatype Insn =
    | AddImm(rt: nat, ra: nat, si: int)
    | OrImm(ra: nat, rs: nat, ui: nat)
    | RotateMask(ra: nat, rs: nat, sh: nat, mb: nat, me: nat)
    | Unmodelled

  /** Reads a word the way the architecture does. */
  function DecodeWord(w: nat): Insn {
    var op, f1, f2, d := w / 0x400_0000, w / 0x20_0000 % 32, w / TWO16 % 32, w % TWO16;
    if op == 14 then AddImm(f1, f2, Exts16(d))
    else if op == 15 then AddImm(f1, f2, Exts16(d) * TWO16)
    else if op == 24 then OrImm(f2, f1, d)
    else if op == 25 then OrImm(f2, f1, d * TWO16)
    else if op == 30 && w % 2 == 0 then
      var sh := w / 0x800 % 32 + 32 * (w / 2 % 2);
      var m := w / 0x40 % 32 + 32 * (w / 0x20 % 2);
      var xo := w / 4 % 8;
      if xo == 0 then RotateMask(f2, f1, sh, m, 63)
      else if xo == 1 then RotateMask(f2, f1, sh, 0, m)
      else if xo == 2 then RotateMask(f2, f1, sh, m, 63 - sh)
      else Unmodelled
    else Unmodelled
  }

  /** Rotate left doubleword. */
  function Rotl64(x: nat, n: nat): nat
    requires n < 64
  {
    Shl(x, n) % TWO64 + Shr(x, 64 - n)
  }

  /** Ones from bit mb to bit me, counting from the most significant bit and
      wrapping round when mb is beyond me. */
  function Mask(mb: nat, me: nat): nat
    requires mb < 64 && me < 64
  {
    if mb <= me then
      Pow2Monotone(63 - me, 64 - mb);
      Pow2(64 - mb) - Pow2(63 - me)
    else
      Pow2Monotone(63 - me, 63);
      Powers();
      TWO64 - 1 - (Pow2(63 - me) - Pow2(64 - mb))
  }

  /** The thirty-two general purpose registers. */
  type Regs = r: seq<nat> | |r| == 32 && forall i :: 0 <= i < 32 ==> r[i] < TWO64
    witness seq(32, _ => 0)

  /** Executes one instruction; a field naming register 0 as an addi/addis base
      reads as zero. */
  function Exec(i: Insn, regs: Regs): Regs {
    match i
    case AddImm(rt, ra, imm) =>
      if rt < 32 && ra < 32 then regs[rt := ((if ra == 0 then 0 else regs[ra]) + imm) % TWO64] else regs
    case OrImm(ra, rs, imm) =>
      if ra < 32 && rs < 32 then regs[ra := BitOr(regs[rs], imm) % TWO64] else regs
    case RotateMask(ra, rs, sh, mb, me) =>
      if ra < 32 && rs < 32 && sh < 64 && mb < 64 && me < 64
      then regs[ra := BitAnd(Rotl64(regs[rs], sh), Mask(mb, me)) % TWO64] else regs
    case Unmodelled => regs
  }

  /** Executes a sequence of words. */
  function Run(words: seq<nat>, regs: Regs): Regs {
    if words == [] then regs else Run(words[1..], Exec(DecodeWord(words[0]), regs))
  }

  lemma {:induction false} RunConcat(a: seq<nat>, b: seq<nat>, regs: Regs)
    ensures Run(a + b, regs) == Run(b, Run(a, regs))
  {
    if a == [] {
      assert a + b == b;
    } else {
      assert (a + b)[1..] == a[1..] + b;
      RunConcat(a[1..], b, Exec(DecodeWord(a[0]), regs));
    }
  }

  // ----- powers of two used below

  lemma Powers()
    ensures Pow2(1) == 2 && Pow2(2) == 4 && Pow2(5) == 32 && Pow2(6) == 0x40 && Pow2(11) == 0x800
    ensures Pow2(16) == TWO16 && Pow2(21) == 0x20_0000 && Pow2(26) == 0x400_0000
    ensures Pow2(32) == TWO32 && Pow2(63) == TWO63 && Pow2(64) == TWO64
  {
    assert Pow2(1) == 2 && Pow2(2) == 4 && Pow2(3) == 8;
    Pow2Add(3, 2);
    Pow2Add(5, 1);
    Pow2Add(6, 5);
    Pow2Add(11, 5);
    Pow2Add(16, 5);
    Pow2Add(21, 5);
    Pow2Add(16, 16);
    Pow2Add(32, 26);
    Pow2Add(58, 5);
    Pow2Add(63, 1);
  }

  // ----- encodings decode to what was asked for

  lemma EncodeDIsSum(op: nat, rt: nat, ra: nat, d: nat)
    requires op < 64 && rt < 32 && ra < 32 && d < TWO16
    ensures EncodeD(op, rt, ra, d) == op * 0x400_0000 + rt * 0x20_0000 + ra * TWO16 + d
  {
    hide BitOr, Pow2;
    Powers();
    OrField(op * 0x400_0000, rt * 0x20_0000, 26, 0x400_0000);
    OrField(op * 0x400_0000 + rt * 0x20_0000, ra * TWO16, 21, 0x20_0000);
    OrField(op * 0x400_0000 + rt * 0x20_0000 + ra * TWO16, d, 16, TWO16);
  }

  lemma EncodeMDIsSum(rs: nat, ra: nat, sh: nat, m: nat, xo: nat, rc: nat)
    requires rs < 32 && ra < 32 && sh < 64 && m < 64 && xo < 8 && rc < 2
    ensures EncodeMD(rs, ra, sh, m, xo, rc)
        == 30 * 0x400_0000 + rs * 0x20_0000 + ra * TWO16 + sh % 32 * 0x800 + m % 32 * 0x40
           + m / 32 * 0x20 + xo * 4 + sh / 32 * 2 + rc
  {
    hide BitOr, Pow2;
    var shLow, shHigh, mLow, mHigh := sh % 32, sh / 32 % 2, m % 32, m / 32 % 2;
    Powers();
    OrField(30 * 0x400_0000, rs * 0x20_0000, 26, 0x400_0000);
    var a := 30 * 0x400_0000 + rs * 0x20_0000;
    OrField(a, ra * TWO16, 21, 0x20_0000);
    var b := a + ra * TWO16;
    OrField(b, shLow * 0x800, 16, TWO16);
    var c := b + shLow * 0x800;
    OrField(c, mLow * 0x40, 11, 0x800);
    EncodeMDTail(c + mLow * 0x40, mHigh, xo, shHigh, rc);
  }

  /** The last four fields of the MD form. */
  lemma EncodeMDTail(d: nat, mHigh: nat, xo: nat, shHigh: nat, rc: nat)
    requires d % 0x40 == 0 && mHigh < 2 && xo < 8 && shHigh < 2 && rc < 2
    ensures BitOr(BitOr(BitOr(BitOr(d, mHigh * 0x20), xo * 4), shHigh * 2), rc)
         == d + mHigh * 0x20 + xo * 4 + shHigh * 2 + rc
  {
    hide *;
    EncodeMDMiddle(d, mHigh, xo);
    DivUnique(d + mHigh * 0x20 + xo * 4, 4, 16 * (d / 0x40) + 8 * mHigh + xo, 0);
    EncodeMDLow(d + mHigh * 0x20 + xo * 4, shHigh, rc);
  }

  lemma EncodeMDMiddle(d: nat, mHigh: nat, xo: nat)
    requires d % 0x40 == 0 && mHigh < 2 && xo < 8
    ensures BitOr(BitOr(d, mHigh * 0x20), xo * 4) == d + mHigh * 0x20 + xo * 4
  {
    hide *;
    Powers();
    DivUnique(d + mHigh * 0x20, 32, 2 * (d / 0x40) + mHigh, 0);
    OrField(d, mHigh * 0x20, 6, 0x40);
    OrField(d + mHigh * 0x20, xo * 4, 5, 32);
  }

  lemma EncodeMDLow(f: nat, shHigh: nat, rc: nat)
    requires f % 4 == 0 && shHigh < 2 && rc < 2
    ensures BitOr(BitOr(f, shHigh * 2), rc) == f + shHigh * 2 + rc
  {
    hide *;
    Powers();
    OrField(f, shHigh * 2, 2, 4);
    EvenSum(f, shHigh);
    OrField(f + shHigh * 2, rc, 1, 2);
  }

  lemma EvenSum(f: nat, h: nat)
    requires f % 4 == 0
    ensures (f + h * 2) % 2 == 0
  {
    var q := f / 4;
    assert f == 4 * q;
    DivUnique(f + h * 2, 2, 2 * q + h, 0);
  }

  /** The four D-form fields are read back off their sum. */
  lemma FieldsOf(op: nat, f1: nat, f2: nat, d: nat)
    requires op < 64 && f1 < 32 && f2 < 32 && d < TWO16
    ensures var w := op * 0x400_0000 + f1 * 0x20_0000 + f2 * TWO16 + d;
            w / 0x400_0000 == op && w / 0x20_0000 % 32 == f1 && w / TWO16 % 32 == f2 && w % TWO16 == d
  {
    var w := op * 0x400_0000 + f1 * 0x20_0000 + f2 * TWO16 + d;
    assert w / TWO16 == op * 1024 + f1 * 32 + f2;
    assert w / 0x20_0000 == op * 32 + f1;
  }

  lemma EncodeDFields(op: nat, f1: nat, f2: nat, d: nat)
    requires op < 64 && f1 < 32 && f2 < 32 && d < TWO16
    ensures var w := EncodeD(op, f1, f2, d);
            w / 0x400_0000 == op && w / 0x20_0000 % 32 == f1 && w / TWO16 % 32 == f2 && w % TWO16 == d
  {
    EncodeDIsSum(op, f1, f2, d);
    FieldsOf(op, f1, f2, d);
  }

  lemma DecodesAddi(rt: nat, ra: nat, si: int)
    requires rt < 32 && ra < 32 && -0x8000 <= si < 0x8000
    ensures DecodeWord(Addi(rt, ra, si)) == AddImm(rt, ra, si)
    ensures DecodeWord(Addis(rt, ra, si)) == AddImm(rt, ra, si * TWO16)
  {
    hide EncodeD, Exts16, Field16;
    SignedField(si);
    EncodeDFields(14, rt, ra, Field16(si));
    EncodeDFields(15, rt, ra, Field16(si));
  }

  lemma SignedField(si: int)
    requires -0x8000 <= si < 0x8000
    ensures Field16(si) < TWO16 && Exts16(Field16(si)) == si
  {
    if si < 0 { DivUnique(si, TWO16, -1, si + TWO16); }
  }

  lemma DecodesOri(ra: nat, rs: nat, ui: nat)
    requires rs < 32 && ra < 32 && ui < TWO16
    ensures DecodeWord(Ori(ra, rs, ui)) == OrImm(ra, rs, ui)
    ensures DecodeWord(Oris(ra, rs, ui)) == OrImm(ra, rs, ui * TWO16)
  {
    hide EncodeD;
    EncodeDFields(24, rs, ra, ui);
    EncodeDFields(25, rs, ra, ui);
  }

  /** Every MD-form word the loader emits means what its mnemonic says. */
  lemma DecodesMD(ra: nat, rs: nat, sh: nat, m: nat, xo: nat)
    requires rs < 32 && ra < 32 && sh < 64 && m < 64 && xo < 3
    ensures DecodeWord(EncodeMD(rs, ra, sh, m, xo, 0))
         == RotateMask(ra, rs, sh, if xo == 1 then 0 else m, if xo == 0 then 63 else if xo == 1 then m else 63 - sh)
  {
    hide BitOr, EncodeMD;
    var w := EncodeMD(rs, ra, sh, m, xo, 0);
    EncodeMDIsSum(rs, ra, sh, m, xo, 0);
    var shLow, shHigh, mLow, mHigh := sh % 32, sh / 32, m % 32, m / 32;
    var d := shLow * 0x800 + mLow * 0x40 + mHigh * 0x20 + xo * 4 + shHigh * 2;
    FieldsOf(30, rs, ra, d);
    LowFieldsOf(30 * 1024 + rs * 32 + ra, shLow, mLow, mHigh, xo, shHigh);
  }

  lemma LowFieldsOf(top: nat, shLow: nat, mLow: nat, mHigh: nat, xo: nat, shHigh: nat)
    requires shLow < 32 && mLow < 32 && mHigh < 2 && xo < 8 && shHigh < 2
    ensures var w := top * TWO16 + shLow * 0x800 + mLow * 0x40 + mHigh * 0x20 + xo * 4 + shHigh * 2;
            && w % 2 == 0 && w / 2 % 2 == shHigh && w / 4 % 8 == xo && w / 0x20 % 2 == mHigh
            && w / 0x40 % 32 == mLow && w / 0x800 % 32 == shLow
  {
    var w := top * TWO16 + shLow * 0x800 + mLow * 0x40 + mHigh * 0x20 + xo * 4 + shHigh * 2;
    var a := top * 32 + shLow;
    var b := a * 32 + mLow;
    var c := b * 2 + mHigh;
    var e := c * 8 + xo;
    var f := e * 2 + shHigh;
    DivUnique(w, 2, f, 0);
    DivUnique(f, 2, e, shHigh);
    DivUnique(w, 4, e, shHigh * 2);
    DivUnique(e, 8, c, xo);
    DivUnique(w, 0x20, c, xo * 4 + shHigh * 2);
    DivUnique(c, 2, b, mHigh);
    DivUnique(w, 0x40, b, mHigh * 0x20 + xo * 4 + shHigh * 2);
    DivUnique(b, 32, a, mLow);
    DivUnique(w, 0x800, a, mLow * 0x40 + mHigh * 0x20 + xo * 4 + shHigh * 2);
    DivUnique(a, 32, top, shLow);
  }
}
