/** The immediate loader: a small compiler from a 64-bit constant to between one
    and five POWER instructions, and the fixed-width form used at relocation
    sites. Words are listed in the order they are emitted. */
module LoadImmediate {
  import opened Bits
  import opened PowerIsa

  function AsInt16(x: nat): int { if x % TWO16 < 0x8000 then x % TWO16 else x % TWO16 - TWO16 }

  function AsInt64(x: nat): int { if x % TWO64 < TWO63 then x % TWO64 else x % TWO64 - TWO64 }

  /** The number of zero bits below the lowest set bit. */
  function CountrZero(x: nat): nat
    requires x > 0
    decreases x
  {
    if x % 2 == 1 then 0 else 1 + CountrZero(x / 2)
  }

  /** The number of bits up to and including the highest set one. */
  function BitLength(x: nat): nat {
    if x == 0 then 0 else 1 + BitLength(x / 2)
  }

  function CountlZero(x: nat): int { 64 - BitLength(x) }

  function LoadImm32(rt: nat, imm: nat): seq<nat> {
    var simm := AsInt32(imm);
    if -0x8000 <= simm < 0x8000 then [Li(rt, simm)]
    else
      [Lis(rt, AsInt16(imm / TWO16))] + (if imm % TWO16 != 0 then [Ori(rt, rt, imm % TWO16)] else [])
  }

  /** imm is a signed 16-bit value shifted left. */
  predicate Shifted16(imm: nat)
    requires imm > 0
  {
    var tz := CountrZero(imm);
    var v := AsInt64(imm) / Pow2(tz);
    -0x8000 <= v <= 0x7FFF && (v % TWO64) * Pow2(tz) % TWO64 == imm
  }

  /** imm is one contiguous run of ones. */
  predicate ContiguousOnes(imm: nat)
    requires imm > 0
  {
    PopCount(imm) + CountlZero(imm) + CountrZero(imm) == 64
  }

  /** imm is a non-negative 31-bit value shifted left by at least one. */
  predicate Shifted31(imm: nat)
    requires imm > 0
  {
    CountrZero(imm) > 0 && Shr(imm, CountrZero(imm)) <= 0x7FFF_FFFF
  }

  /** The high half, before it is shifted into place. */
  function LoadHigh(rt: nat, hi: nat): seq<nat> {
    if hi == 0 then [Li(rt, 0)]
    else if hi <= 0x7FFF then [Li(rt, hi)]
    else [Lis(rt, AsInt16(hi / TWO16))] + (if hi % TWO16 != 0 then [Ori(rt, rt, hi % TWO16)] else [])
  }

  /** The high half, however it is reached, then the two low quarters. */
  function LoadGeneral(rt: nat, imm: nat): seq<nat> {
    var hi, lo := imm / TWO32, imm % TWO32;
    LoadHigh(rt, hi)
    + [Sldi(rt, rt, 32)]
    + (if lo / TWO16 != 0 then [Oris(rt, rt, lo / TWO16)] else [])
    + (if lo % TWO16 != 0 then [Ori(rt, rt, lo % TWO16)] else [])
  }

  /** The words emitted for imm; `noShifted32` is the environment kill switch
      for the shifted-32 rule. */
  function LoadImm64(rt: nat, imm: nat, noShifted32: bool): seq<nat>
    requires imm < TWO64
  {
    if imm == 0 then [Li(rt, 0)]
    else if imm <= 0x7FFF_FFFF || imm >= 0xFFFF_FFFF_8000_0000 then LoadImm32(rt, imm % TWO32)
    else if imm <= 0xFFFF_FFFF then LoadImm32(rt, imm) + [Clrldi(rt, rt, 32)]
    else
      Powers();
      CountrZeroBound(imm, 64);
      LoadWide(rt, imm, noShifted32)
  }

  /** The rules for values wider than 32 bits, in the order they are tried. */
  function LoadWide(rt: nat, imm: nat, noShifted32: bool): seq<nat>
    requires 0 < imm && CountrZero(imm) < 64
  {
    var tz := CountrZero(imm);
    if Shifted16(imm) then [Li(rt, AsInt64(imm) / Pow2(tz)), Sldi(rt, rt, tz)]
    else if ContiguousOnes(imm) then [Li(rt, -1), Rldic(rt, rt, tz, CountlZeroNat(imm))]
    else if !noShifted32 && Shifted31(imm) then LoadImm32(rt, Shr(imm, tz)) + [Sldi(rt, rt, tz)]
    else LoadGeneral(rt, imm)
  }

  /** 63 - hi, where hi is the position of the highest set bit. */
  function CountlZeroNat(imm: nat): nat { if BitLength(imm) <= 64 then 64 - BitLength(imm) else 0 }

  /** Five instructions whatever the value. */
  function LoadImm64Fixed(rt: nat, imm: nat): seq<nat> {
    var hi, lo := imm / TWO32, imm % TWO32;
    [ Lis(rt, AsInt16(hi / TWO16)), Ori(rt, rt, hi % TWO16), Sldi(rt, rt, 32),
      Oris(rt, rt, lo / TWO16), Ori(rt, rt, lo % TWO16) ]
  }

  // ----- trailing zeros, length, population count

  lemma {:induction false} CountrZeroSplits(x: nat)
    requires x > 0
    ensures Shl(Shr(x, CountrZero(x)), CountrZero(x)) == x
    ensures Shr(x, CountrZero(x)) % 2 == 1
    decreases x
  {
    if x % 2 == 0 { CountrZeroSplits(x / 2); }
  }

  lemma {:induction false} CountrZeroBound(x: nat, n: nat)
    requires 0 < x < Pow2(n)
    ensures CountrZero(x) < n
    decreases n
  {
    if x % 2 == 0 { CountrZeroBound(x / 2, n - 1); }
  }

  lemma {:induction false} BitLengthBounds(x: nat)
    requires x > 0
    ensures BitLength(x) > 0 && Pow2(BitLength(x) - 1) <= x < Pow2(BitLength(x))
    decreases x
  {
    if x > 1 { BitLengthBounds(x / 2); }
  }

  lemma {:induction false} BitLengthAtMost(x: nat, n: nat)
    requires x < Pow2(n)
    ensures BitLength(x) <= n
    decreases n
  {
    if x > 0 { BitLengthAtMost(x / 2, n - 1); }
  }

  /** A number has at most as many ones as bits, and all of them only if it is
      one below a power of two. */
  lemma {:induction false} AllOnes(x: nat)
    ensures PopCount(x) <= BitLength(x)
    ensures PopCount(x) == BitLength(x) ==> x == Pow2(BitLength(x)) - 1
    decreases x
  {
    if x > 0 { AllOnes(x / 2); }
  }

  lemma {:induction false} ShiftCounts(x: nat)
    requires x > 0
    ensures var y := Shr(x, CountrZero(x));
            PopCount(x) == PopCount(y) && BitLength(x) == BitLength(y) + CountrZero(x)
    decreases x
  {
    if x % 2 == 0 { ShiftCounts(x / 2); }
  }

  /** A contiguous run of ones is a difference of two powers of two. */
  lemma ContiguousOnesValue(imm: nat)
    requires 0 < imm < TWO64 && ContiguousOnes(imm)
    ensures BitLength(imm) <= 64
    ensures imm == Pow2(BitLength(imm)) - Pow2(CountrZero(imm))
  {
    hide PopCount, BitLength, CountrZero, Pow2, Shl, Shr;
    Powers();
    BitLengthAtMost(imm, 64);
    var tz := CountrZero(imm);
    var y := Shr(imm, tz);
    CountrZeroSplits(imm);
    ShlIsMul(y, tz);
    ShiftCounts(imm);
    AllOnes(y);
    Pow2Add(BitLength(y), tz);
    MulPred(Pow2(BitLength(y)), Pow2(tz));
  }

  lemma MulPred(a: nat, b: nat)
    ensures (a - 1) * b == a * b - b
  {
  }

  // ----- what each instruction does to the target register

  lemma RunOne(w: nat, regs: Regs)
    ensures Run([w], regs) == Exec(DecodeWord(w), regs)
  {
    hide DecodeWord, Exec;
    assert [w][1..] == [];
  }

  lemma RunSnoc(ws: seq<nat>, w: nat, regs: Regs)
    ensures Run(ws + [w], regs) == Exec(DecodeWord(w), Run(ws, regs))
  {
    RunConcat(ws, [w], regs);
    RunOne(w, Run(ws, regs));
  }

  lemma ExecLi(rt: nat, v: int, regs: Regs)
    requires rt < 32 && -0x8000 <= v < 0x8000
    ensures Exec(DecodeWord(Li(rt, v)), regs) == regs[rt := v % TWO64]
    ensures Exec(DecodeWord(Lis(rt, v)), regs) == regs[rt := v * TWO16 % TWO64]
  {
    hide DecodeWord, EncodeD;
    DecodesAddi(rt, 0, v);
  }

  lemma ExecOri(rt: nat, ui: nat, regs: Regs)
    requires rt < 32 && ui < TWO16 && regs[rt] % TWO16 == 0
    ensures regs[rt] + ui < TWO64
    ensures Exec(DecodeWord(Ori(rt, rt, ui)), regs) == regs[rt := regs[rt] + ui]
  {
    hide DecodeWord, EncodeD, BitOr, Pow2;
    DecodesOri(rt, rt, ui);
    Powers();
    OrField(regs[rt], ui, 16, TWO16);
  }

  lemma ExecOris(rt: nat, ui: nat, regs: Regs)
    requires rt < 32 && ui < TWO16 && regs[rt] % TWO32 == 0
    ensures regs[rt] + ui * TWO16 < TWO64
    ensures Exec(DecodeWord(Oris(rt, rt, ui)), regs) == regs[rt := regs[rt] + ui * TWO16]
  {
    hide DecodeWord, EncodeD, BitOr, Pow2;
    DecodesOri(rt, rt, ui);
    Powers();
    OrField(regs[rt], ui * TWO16, 32, TWO32);
  }

  /** Rotating left by n and clearing the low n bits is a left shift. */
  lemma RotateShifts(x: nat, n: nat)
    requires x < TWO64 && n < 64
    ensures BitAnd(Rotl64(x, n), Mask(0, 63 - n)) == x * Pow2(n) % TWO64
  {
    hide Pow2, BitAnd, Shl, Shr;
    Powers();
    var p, q := Pow2(n), Pow2(64 - n);
    Pow2Add(64 - n, n);
    var top, low := Shr(x, 64 - n), x % q;
    ShrIsDiv(x, 64 - n);
    TopBelow(x, p, q);
    ShlIsMul(x, n);
    ShiftOut(x, p, q);
    ShlIsMul(low, n);
    ClearLow(low, top, q, p, n);
    MulPred(q, p);
  }

  lemma ClearLow(low: nat, top: nat, q: nat, p: nat, n: nat)
    requires n < 64 && p == Pow2(n) && q == Pow2(64 - n) && low < q && top < p
    ensures (q - 1) * p >= 0 && BitAnd(Shl(low, n) + top, (q - 1) * p) == Shl(low, n)
  {
    hide Pow2, BitAnd, Shl;
    ShlIsMul(q - 1, n);
    AndSplit(low, top, q - 1, 0, n);
    AndOnes(low, 64 - n);
    AndZero(top);
  }

  lemma ShiftOut(x: nat, p: nat, q: nat)
    requires p > 0 && q > 0 && q * p == TWO64
    ensures x * p % TWO64 == x % q * p
  {
    var t, l := x / q, x % q;
    assert x == q * t + l;
    assert x * p == TWO64 * t + l * p by { Distribute(q, t, l, p); }
    assert 0 <= l * p < q * p by { MulLess(l, q, p); }
    DivUnique(x * p, TWO64, t, l * p);
  }

  lemma Distribute(q: nat, t: nat, l: nat, p: nat)
    ensures (q * t + l) * p == q * p * t + l * p
  {
  }

  lemma {:induction false} MulLess(a: nat, b: nat, p: nat)
    requires a < b && p > 0
    ensures 0 <= a * p < b * p
  {
    MulAtLeast(p, b - a);
    MulSub(p, b, a);
    if a > 0 { MulAtLeast(p, a); }
  }

  lemma TopBelow(x: nat, p: nat, q: nat)
    requires p > 0 && q > 0 && x < q * p
    ensures x / q < p
  {
    var k := x / q;
    assert q * k <= x;
    if k > p { MulLess(p, k, q); }
  }

  lemma ExecSldi(rt: nat, n: nat, regs: Regs)
    requires rt < 32 && n < 64
    ensures Exec(DecodeWord(Sldi(rt, rt, n)), regs) == regs[rt := regs[rt] * Pow2(n) % TWO64]
  {
    hide DecodeWord, EncodeMD, BitAnd, Rotl64, Pow2;
    DecodesMD(rt, rt, n, 63 - n, 1);
    RotateShifts(regs[rt], n);
  }

  lemma ExecClrldi(rt: nat, regs: Regs)
    requires rt < 32
    ensures Exec(DecodeWord(Clrldi(rt, rt, 32)), regs) == regs[rt := regs[rt] % TWO32]
  {
    hide DecodeWord, EncodeMD, BitAnd, Pow2, Shl;
    DecodesMD(rt, rt, 0, 32, 0);
    Powers();
    var x := regs[rt];
    RotateByZero(x);
    assert Mask(32, 63) == TWO32 - 1 by { assert Pow2(0) == 1 by { PowZero(); } }
    ShlIsMul(x / TWO32, 32);
    ShlIsMul(0, 32);
    AndSplit(x / TWO32, x % TWO32, 0, TWO32 - 1, 32);
    AndOnes(x % TWO32, 32);
    AndZero(x / TWO32);
  }

  lemma PowZero()
    ensures Pow2(0) == 1
  {
  }

  lemma RotateByZero(x: nat)
    requires x < TWO64
    ensures Rotl64(x, 0) == x
  {
    hide Pow2, Shl, Shr;
    Powers();
    ShlIsMul(x, 0);
    ShrIsDiv(x, 64);
    PowZero();
  }

  /** Rotating all ones changes nothing; the mask then selects the run. */
  lemma ExecRldicOnes(rt: nat, sh: nat, mb: nat, regs: Regs)
    requires rt < 32 && sh < 64 && mb <= 63 - sh && regs[rt] == TWO64 - 1
    ensures 0 <= Pow2(64 - mb) - Pow2(sh) < TWO64
    ensures Exec(DecodeWord(Rldic(rt, rt, sh, mb)), regs) == regs[rt := Pow2(64 - mb) - Pow2(sh)]
  {
    hide DecodeWord, EncodeMD, BitAnd, Rotl64, Pow2;
    DecodesMD(rt, rt, sh, mb, 2);
    Powers();
    Pow2Monotone(sh, 64 - mb);
    Pow2Monotone(64 - mb, 64);
    RotateOnes(sh);
    AndOnes(Pow2(64 - mb) - Pow2(sh), 64);
  }

  lemma RotateOnes(n: nat)
    requires n < 64
    ensures Rotl64(TWO64 - 1, n) == TWO64 - 1
  {
    hide Pow2, Shl, Shr;
    Powers();
    var p, q := Pow2(n), Pow2(64 - n);
    Pow2Add(64 - n, n);
    ShlIsMul(TWO64 - 1, n);
    ShrIsDiv(TWO64 - 1, 64 - n);
    MulPred(TWO64, p);
    MulPred(p, q);
    DivUnique(TWO64 - 1, q, p - 1, q - 1);
    if n > 0 { Pow2Monotone(n, 63); }
    DivUnique((TWO64 - 1) * p, TWO64, p - 1, TWO64 - p);
  }

  // ----- the sequences load their value

  lemma LoadImm32Correct(rt: nat, imm: nat, regs: Regs)
    requires rt < 32 && imm < TWO32
    ensures Run(LoadImm32(rt, imm), regs) == regs[rt := AsInt32(imm) % TWO64]
  {
    hide Run, Exec, DecodeWord, EncodeD;
    var simm := AsInt32(imm);
    if -0x8000 <= simm < 0x8000 {
      RunOne(Li(rt, simm), regs);
      ExecLi(rt, simm, regs);
    } else {
      LoadHighLow(rt, imm, regs);
    }
  }

  /** lis, then ori when the low half is not zero. */
  lemma LoadHighLow(rt: nat, imm: nat, regs: Regs)
    requires rt < 32 && imm < TWO32
    ensures Run([Lis(rt, AsInt16(imm / TWO16))] + (if imm % TWO16 != 0 then [Ori(rt, rt, imm % TWO16)] else []), regs)
         == regs[rt := AsInt32(imm) % TWO64]
  {
    hide Run, Exec, DecodeWord, EncodeD;
    var s, lo := AsInt16(imm / TWO16), imm % TWO16;
    RunOne(Lis(rt, s), regs);
    ExecLi(rt, s, regs);
    HalvesJoin(imm);
    if lo != 0 {
      RunSnoc([Lis(rt, s)], Ori(rt, rt, lo), regs);
      ExecOri(rt, lo, regs[rt := s * TWO16 % TWO64]);
    } else {
      assert [Lis(rt, s)] + [] == [Lis(rt, s)];
    }
  }

  lemma HalvesJoin(imm: nat)
    requires imm < TWO32
    ensures AsInt16(imm / TWO16) * TWO16 + imm % TWO16 == AsInt32(imm)
    ensures AsInt16(imm / TWO16) * TWO16 % TWO64 % TWO16 == 0
    ensures AsInt16(imm / TWO16) * TWO16 % TWO64 + imm % TWO16 == AsInt32(imm) % TWO64
  {
    var s := AsInt16(imm / TWO16);
    assert imm == imm / TWO16 * TWO16 + imm % TWO16;
    if s >= 0 {
      assert s * TWO16 % TWO64 == s * TWO16;
    } else {
      assert s * TWO16 % TWO64 == s * TWO16 + TWO64;
    }
  }

  /** Loading a value and shifting it left. */
  lemma LoadThenShift(ws: seq<nat>, rt: nat, v: int, n: nat, regs: Regs)
    requires rt < 32 && n < 64 && Run(ws, regs) == regs[rt := v % TWO64]
    ensures Run(ws + [Sldi(rt, rt, n)], regs) == regs[rt := v * Pow2(n) % TWO64]
  {
    hide Run, Exec, DecodeWord, EncodeMD, Pow2;
    RunSnoc(ws, Sldi(rt, rt, n), regs);
    ExecSldi(rt, n, regs[rt := v % TWO64]);
    ModMul(v, Pow2(n));
  }

  lemma ModMul(v: int, p: int)
    ensures v % TWO64 * p % TWO64 == v * p % TWO64
  {
    var q, r := v / TWO64, v % TWO64;
    assert v == TWO64 * q + r;
    assert v * p == TWO64 * (q * p) + r * p;
    var q2, r2 := r * p / TWO64, r * p % TWO64;
    DivUnique(v * p, TWO64, q * p + q2, r2);
  }

  lemma Shifted16Correct(rt: nat, imm: nat, regs: Regs)
    requires rt < 32 && 0 < imm < TWO64 && CountrZero(imm) < 64 && Shifted16(imm)
    ensures Run([Li(rt, AsInt64(imm) / Pow2(CountrZero(imm))), Sldi(rt, rt, CountrZero(imm))], regs) == regs[rt := imm]
  {
    hide Run, Exec, DecodeWord, EncodeMD, EncodeD, Pow2, CountrZero;
    var tz := CountrZero(imm);
    var v := AsInt64(imm) / Pow2(tz);
    RunOne(Li(rt, v), regs);
    ExecLi(rt, v, regs);
    LoadThenShift([Li(rt, v)], rt, v, tz, regs);
    ModMul(v, Pow2(tz));
    assert [Li(rt, v)] + [Sldi(rt, rt, tz)] == [Li(rt, v), Sldi(rt, rt, tz)];
  }

  lemma ContiguousOnesCorrect(rt: nat, imm: nat, regs: Regs)
    requires rt < 32 && 0 < imm < TWO64 && ContiguousOnes(imm)
    ensures Run([Li(rt, -1), Rldic(rt, rt, CountrZero(imm), CountlZeroNat(imm))], regs) == regs[rt := imm]
  {
    hide Run, Exec, DecodeWord, EncodeMD, EncodeD, Pow2, CountrZero, BitLength, PopCount;
    var tz, mb := CountrZero(imm), CountlZeroNat(imm);
    ContiguousOnesValue(imm);
    Powers();
    CountrZeroBound(imm, 64);
    assert tz < BitLength(imm) by {
      if BitLength(imm) <= tz { Pow2Monotone(BitLength(imm), tz); }
    }
    RunOne(Li(rt, -1), regs);
    ExecLi(rt, -1, regs);
    RunSnoc([Li(rt, -1)], Rldic(rt, rt, tz, mb), regs);
    ExecRldicOnes(rt, tz, mb, regs[rt := TWO64 - 1]);
    assert [Li(rt, -1)] + [Rldic(rt, rt, tz, mb)] == [Li(rt, -1), Rldic(rt, rt, tz, mb)];
  }

  lemma Shifted31Correct(rt: nat, imm: nat, regs: Regs)
    requires rt < 32 && 0 < imm < TWO64 && CountrZero(imm) < 64 && Shifted31(imm)
    ensures Run(LoadImm32(rt, Shr(imm, CountrZero(imm))) + [Sldi(rt, rt, CountrZero(imm))], regs) == regs[rt := imm]
  {
    hide Run, Exec, DecodeWord, EncodeMD, EncodeD, Pow2, CountrZero, LoadImm32, Shl, Shr, Sldi, Shifted31, AsInt32;
    var tz := CountrZero(imm);
    var v := Shr(imm, tz);
    Shifted31Value(imm);
    LoadImm32Correct(rt, v, regs);
    LoadThenShift(LoadImm32(rt, v), rt, v, tz, regs);
  }

  lemma Shifted31Value(imm: nat)
    requires 0 < imm < TWO64 && Shifted31(imm)
    ensures var v := Shr(imm, CountrZero(imm));
            && v < TWO32 && AsInt32(v) == v && v * Pow2(CountrZero(imm)) % TWO64 == imm
  {
    hide Pow2, CountrZero, Shl, Shr;
    CountrZeroSplits(imm);
    ShlIsMul(Shr(imm, CountrZero(imm)), CountrZero(imm));
  }

  /** Shifting by 32 discards whatever sign extension left above bit 31. */
  lemma ShiftBy32(v: int, hi: nat)
    requires hi < TWO32 && v % TWO32 == hi
    ensures v * TWO32 % TWO64 == hi * TWO32
  {
    var q := v / TWO32;
    assert v == TWO32 * q + hi;
    assert v * TWO32 == TWO64 * q + hi * TWO32;
    DivUnique(v * TWO32, TWO64, q, hi * TWO32);
  }

  /** The shift puts the high half in place. */
  lemma PlaceHigh(ws: seq<nat>, rt: nat, v: int, hi: nat, regs: Regs)
    requires rt < 32 && hi < TWO32 && v % TWO32 == hi
    requires Run(ws, regs) == regs[rt := v % TWO64]
    ensures Run(ws + [Sldi(rt, rt, 32)], regs) == regs[rt := hi * TWO32]
  {
    hide Run, Exec, DecodeWord, EncodeMD, EncodeD, Pow2;
    Powers();
    LoadThenShift(ws, rt, v, 32, regs);
    ShiftBy32(v, hi);
  }

  /** oris fills in the third quarter; it may be left out when that is zero. */
  lemma FillThird(ws: seq<nat>, rt: nat, x: nat, mid: nat, regs: Regs, emit: bool)
    requires rt < 32 && mid < TWO16 && x % TWO32 == 0 && x < TWO64 && (mid != 0 ==> emit)
    requires Run(ws, regs) == regs[rt := x]
    ensures x + mid * TWO16 < TWO64
    ensures Run(ws + (if emit then [Oris(rt, rt, mid)] else []), regs) == regs[rt := x + mid * TWO16]
  {
    hide Run, Exec, DecodeWord, EncodeMD, EncodeD;
    if emit {
      RunSnoc(ws, Oris(rt, rt, mid), regs);
      ExecOris(rt, mid, regs[rt := x]);
    } else {
      assert ws + [] == ws;
    }
  }

  /** ori fills in the last quarter; it may be left out when that is zero. */
  lemma FillFourth(ws: seq<nat>, rt: nat, x: nat, lo: nat, regs: Regs, emit: bool)
    requires rt < 32 && lo < TWO16 && x % TWO16 == 0 && x < TWO64 && (lo != 0 ==> emit)
    requires Run(ws, regs) == regs[rt := x]
    ensures x + lo < TWO64
    ensures Run(ws + (if emit then [Ori(rt, rt, lo)] else []), regs) == regs[rt := x + lo]
  {
    hide Run, Exec, DecodeWord, EncodeMD, EncodeD;
    if emit {
      RunSnoc(ws, Ori(rt, rt, lo), regs);
      ExecOri(rt, lo, regs[rt := x]);
    } else {
      assert ws + [] == ws;
    }
  }

  lemma Quarters(hi: nat, mid: nat)
    ensures hi * TWO32 % TWO32 == 0 && (hi * TWO32 + mid * TWO16) % TWO16 == 0
  {
    DivUnique(hi * TWO32, TWO32, hi, 0);
    DivUnique(hi * TWO32 + mid * TWO16, TWO16, hi * TWO16 + mid, 0);
  }

  /** The four quarters of a doubleword. */
  lemma QuartersJoin(imm: nat)
    requires imm < TWO64
    ensures var hi, mid, lo := imm / TWO32, imm % TWO32 / TWO16, imm % TWO32 % TWO16;
            hi < TWO32 && mid < TWO16 && lo < TWO16 && imm == hi * TWO32 + mid * TWO16 + lo
  {
  }

  lemma FillLow(ws: seq<nat>, rt: nat, v: int, hi: nat, mid: nat, lo: nat, regs: Regs, oris: bool, ori: bool)
    requires rt < 32 && hi < TWO32 && mid < TWO16 && lo < TWO16 && v % TWO32 == hi
    requires Run(ws, regs) == regs[rt := v % TWO64]
    requires (mid != 0 ==> oris) && (lo != 0 ==> ori)
    ensures Run(ws + [Sldi(rt, rt, 32)]
                + (if oris then [Oris(rt, rt, mid)] else [])
                + (if ori then [Ori(rt, rt, lo)] else []), regs)
         == regs[rt := hi * TWO32 + mid * TWO16 + lo]
  {
    hide Run, Sldi, Oris, Ori, Exec, DecodeWord, EncodeMD, EncodeD;
    Quarters(hi, mid);
    PlaceHigh(ws, rt, v, hi, regs);
    var ws1 := ws + [Sldi(rt, rt, 32)];
    FillThird(ws1, rt, hi * TWO32, mid, regs, oris);
    var ws2 := ws1 + (if oris then [Oris(rt, rt, mid)] else []);
    FillFourth(ws2, rt, hi * TWO32 + mid * TWO16, lo, regs, ori);
  }

  lemma LoadGeneralCorrect(rt: nat, imm: nat, regs: Regs)
    requires rt < 32 && imm < TWO64
    ensures Run(LoadGeneral(rt, imm), regs) == regs[rt := imm]
  {
    hide Run, Exec, DecodeWord, EncodeMD, EncodeD, Sldi, Oris, Ori, Li, Lis;
    var hi, mid, lo := imm / TWO32, imm % TWO32 / TWO16, imm % TWO32 % TWO16;
    QuartersJoin(imm);
    if hi <= 0x7FFF {
      RunOne(Li(rt, hi), regs);
      ExecLi(rt, hi, regs);
      FillLow([Li(rt, hi)], rt, hi, hi, mid, lo, regs, mid != 0, lo != 0);
    } else {
      LoadHighLow(rt, hi, regs);
      var ws := [Lis(rt, AsInt16(hi / TWO16))] + (if hi % TWO16 != 0 then [Ori(rt, rt, hi % TWO16)] else []);
      FillLow(ws, rt, AsInt32(hi), hi, mid, lo, regs, mid != 0, lo != 0);
    }
  }

  /** Whatever the constant, the register and the kill switch, the emitted words
      leave exactly that constant in that register and touch no other. */
  lemma LoadImm64Correct(rt: nat, imm: nat, noShifted32: bool, regs: Regs)
    requires rt < 32 && imm < TWO64
    ensures Run(LoadImm64(rt, imm, noShifted32), regs) == regs[rt := imm]
  {
    hide Run, Exec, DecodeWord, EncodeMD, EncodeD, LoadImm32, LoadGeneral, CountrZero, Pow2,
         Shifted16, ContiguousOnes, Shifted31, AsInt32;
    SignExtended(imm);
    if imm == 0 {
      RunOne(Li(rt, 0), regs);
      ExecLi(rt, 0, regs);
    } else if imm <= 0x7FFF_FFFF || imm >= 0xFFFF_FFFF_8000_0000 {
      LoadImm32Correct(rt, imm % TWO32, regs);
    } else if imm <= 0xFFFF_FFFF {
      LoadImm32Correct(rt, imm, regs);
      RunSnoc(LoadImm32(rt, imm), Clrldi(rt, rt, 32), regs);
      ExecClrldi(rt, regs[rt := AsInt32(imm) % TWO64]);
    } else {
      Powers();
      CountrZeroBound(imm, 64);
      LoadWideCorrect(rt, imm, noShifted32, regs);
    }
  }

  /** Which constants sign extension gives back, and which their low half. */
  lemma SignExtended(imm: nat)
    requires imm < TWO64
    ensures imm <= 0x7FFF_FFFF || imm >= 0xFFFF_FFFF_8000_0000 ==> AsInt32(imm % TWO32) % TWO64 == imm
    ensures imm < TWO32 ==> AsInt32(imm) % TWO64 % TWO32 == imm
  {
    if imm >= 0xFFFF_FFFF_8000_0000 {
      DivUnique(imm, TWO32, TWO32 - 1, imm - (TWO32 - 1) * TWO32);
    }
  }

  lemma LoadWideCorrect(rt: nat, imm: nat, noShifted32: bool, regs: Regs)
    requires rt < 32 && 0 < imm < TWO64 && CountrZero(imm) < 64
    ensures Run(LoadWide(rt, imm, noShifted32), regs) == regs[rt := imm]
  {
    hide Run, LoadImm32, LoadGeneral, CountrZero, Pow2, Shifted16, ContiguousOnes, Shifted31, EncodeD, EncodeMD;
    if Shifted16(imm) {
      Shifted16Correct(rt, imm, regs);
    } else if ContiguousOnes(imm) {
      ContiguousOnesCorrect(rt, imm, regs);
    } else if !noShifted32 && Shifted31(imm) {
      Shifted31Correct(rt, imm, regs);
    } else {
      LoadGeneralCorrect(rt, imm, regs);
    }
  }

  /** The relocation form loads its value too, always in 5 * 4 bytes. */
  lemma LoadImm64FixedCorrect(rt: nat, imm: nat, regs: Regs)
    requires rt < 32 && imm < TWO64
    ensures |LoadImm64Fixed(rt, imm)| * 4 == 20
    ensures Run(LoadImm64Fixed(rt, imm), regs) == regs[rt := imm]
  {
    hide Run, Exec, DecodeWord, EncodeMD, EncodeD;
    var hi, lo := imm / TWO32, imm % TWO32;
    var s := AsInt16(hi / TWO16);
    QuartersJoin(imm);
    RunOne(Lis(rt, s), regs);
    ExecLi(rt, s, regs);
    HalvesJoin(hi);
    RunSnoc([Lis(rt, s)], Ori(rt, rt, hi % TWO16), regs);
    ExecOri(rt, hi % TWO16, regs[rt := s * TWO16 % TWO64]);
    var ws := [Lis(rt, s)] + [Ori(rt, rt, hi % TWO16)];
    FillLow(ws, rt, AsInt32(hi), hi, lo / TWO16, lo % TWO16, regs, true, true);
    assert LoadImm64Fixed(rt, imm)
        == ws + [Sldi(rt, rt, 32)] + [Oris(rt, rt, lo / TWO16)] + [Ori(rt, rt, lo % TWO16)];
  }

  // ----- what the sequences cost

  lemma {:induction false} OddLowHalf(v: nat)
    requires v % 2 == 1
    ensures v % TWO16 != 0
  {
    assert v == v / TWO16 * TWO16 + v % TWO16;
  }

  /** When the shifted-16 rule has declined, a 31-bit shifted value needs both
      halves: the odd part is above 0x7FFF and its low half is not zero. */
  lemma Shifted31NeedsBothHalves(rt: nat, imm: nat)
    requires 0 < imm < TWO64 && CountrZero(imm) < 64 && Shifted31(imm) && !Shifted16(imm)
    ensures |LoadImm32(rt, Shr(imm, CountrZero(imm)))| == 2
  {
    hide CountrZero, Shl, Shr, Pow2, EncodeD;
    var tz := CountrZero(imm);
    var v := Shr(imm, tz);
    CountrZeroSplits(imm);
    ShlIsMul(v, tz);
    OddLowHalf(v);
    if v <= 0x7FFF { SmallShiftIsShifted16(imm, v, tz); }
  }

  /** The second half of the shifted-16 test never fails: only the range of the
      shifted value decides. */
  lemma Shifted16IffFits(imm: nat)
    requires 0 < imm < TWO64
    ensures AsInt64(imm) / Pow2(CountrZero(imm)) * Pow2(CountrZero(imm)) == AsInt64(imm)
    ensures Shifted16(imm) <==> -0x8000 <= AsInt64(imm) / Pow2(CountrZero(imm)) <= 0x7FFF
  {
    hide CountrZero, Pow2, AsInt64;
    var p := Pow2(CountrZero(imm));
    var v := SignedQuotient(imm);
    DivUnique(AsInt64(imm), p, v, 0);
    ModMul(v, p);
    SignedResidue(imm);
  }

  /** The signed reading of imm is a multiple of its lowest set bit. */
  lemma SignedQuotient(imm: nat) returns (v: int)
    requires 0 < imm < TWO64
    ensures AsInt64(imm) == Pow2(CountrZero(imm)) * v
  {
    hide CountrZero, Pow2, Shl, Shr;
    Powers();
    CountrZeroBound(imm, 64);
    var tz := CountrZero(imm);
    var p, q, y := Pow2(tz), Pow2(64 - tz), Shr(imm, tz);
    Pow2Add(64 - tz, tz);
    CountrZeroSplits(imm);
    ShlIsMul(y, tz);
    SignedMultiple(imm, y, p, q);
    v := y;
    if imm >= TWO63 { v := v - q; }
  }

  lemma SignedMultiple(imm: nat, y: int, p: int, q: int)
    requires imm < TWO64 && imm == y * p && q * p == TWO64
    ensures AsInt64(imm) == p * if imm < TWO63 then y else y - q
  {
    MulSub(p, y, q);
  }

  lemma SignedResidue(imm: nat)
    requires imm < TWO64
    ensures AsInt64(imm) % TWO64 == imm
  {
    if imm >= TWO63 { DivUnique(imm - TWO64, TWO64, -1, imm); }
  }

  /** A multiple t * 2^k of a low enough power, with t a signed 16-bit value. */
  lemma FitsFromMultiple(imm: nat, t: int, k: nat)
    requires 0 < imm < TWO64 && k <= CountrZero(imm) && -0x8000 <= t <= 0x7FFF && AsInt64(imm) == t * Pow2(k)
    ensures Shifted16(imm)
  {
    hide CountrZero, Pow2, Shifted16;
    Shifted16IffFits(imm);
    var tz := CountrZero(imm);
    var v, m := AsInt64(imm) / Pow2(tz), Pow2(tz - k);
    Pow2Add(tz - k, k);
    assert v * m * Pow2(k) == t * Pow2(k);
    CancelRight(v * m, t, Pow2(k));
    SmallFactor(v, m);
  }

  lemma CancelRight(a: int, b: int, p: nat)
    requires p > 0 && a * p == b * p
    ensures a == b
  {
    MulSub(p, a, b);
    if a > b { MulAtLeast(p, a - b); }
    if a < b {
      MulSub(p, b, a);
      MulAtLeast(p, b - a);
    }
  }

  lemma SmallFactor(v: int, m: nat)
    requires m > 0
    ensures v >= 0 ==> v <= v * m
    ensures v < 0 ==> v * m <= v
  {
    if v > 0 { MulAtLeast(v, m); }
    if v < 0 {
      assert -v * m == -(v * m);
      MulAtLeast(-v, m);
    }
  }

  lemma SmallShiftIsShifted16(imm: nat, v: nat, tz: nat)
    requires 0 < imm < TWO64 && tz == CountrZero(imm) && 0 < tz < 64 && v <= 0x7FFF && imm == v * Pow2(tz)
    ensures Shifted16(imm)
  {
    hide CountrZero, Pow2, Shifted16;
    Powers();
    var p, q := Pow2(tz), Pow2(64 - tz);
    Pow2Add(64 - tz, tz);
    if imm < TWO63 {
      FitsFromMultiple(imm, v, tz);
    } else {
      MulSub(p, v, q);
      assert q <= 2 * v by {
        assert 2 * v * p == 2 * imm;
        if q > 2 * v { MulLess(2 * v, q, p); }
      }
      if q <= v { MulSub(p, q, v); }
      FitsFromMultiple(imm, v - q, tz);
    }
  }

  lemma {:induction false} CountrZeroShl(u: nat, k: nat)
    requires u > 0
    ensures Shl(u, k) > 0 && CountrZero(Shl(u, k)) == CountrZero(u) + k
  {
    if k > 0 { CountrZeroShl(u, k - 1); }
  }

  /** A 16-bit value in the top quarter, or a 15-bit one in the next. */
  lemma WordShiftIsShifted16(imm: nat, u: nat, k: nat)
    requires 0 < imm < TWO64 && imm == u * Pow2(k) && k < 64
    requires (k == 48 && u < TWO16) || (k == 32 && u <= 0x7FFF)
    ensures Shifted16(imm)
  {
    hide CountrZero, Pow2, Shifted16, Shl;
    Powers();
    Pow2Add(32, 16);
    ShlIsMul(u, k);
    CountrZeroShl(u, k);
    FitsFromMultiple(imm, if k == 48 then AsInt16(u) else u, k);
  }

  /** The shifted-32 rule, whenever it is the one used, costs exactly three
      instructions. */
  lemma ShiftedRuleCostsThree(rt: nat, imm: nat)
    requires 0xFFFF_FFFF < imm < 0xFFFF_FFFF_8000_0000
    requires !Shifted16(imm) && !ContiguousOnes(imm) && Shifted31(imm)
    ensures |LoadImm64(rt, imm, false)| == 3
  {
    hide CountrZero, Shr, Pow2, LoadImm32, Shifted16, ContiguousOnes, Shifted31, LoadGeneral;
    Powers();
    CountrZeroBound(imm, 64);
    Shifted31NeedsBothHalves(rt, imm);
  }

  /** The number of instructions of the general sequence. */
  lemma GeneralCost(rt: nat, imm: nat)
    requires TWO32 <= imm < TWO64
    ensures |LoadGeneral(rt, imm)|
         == (if imm / TWO32 <= 0x7FFF || imm / TWO32 % TWO16 == 0 then 1 else 2) + 1
            + (if imm % TWO32 / TWO16 != 0 then 1 else 0) + (if imm % TWO32 % TWO16 != 0 then 1 else 0)
  {
    hide EncodeD, EncodeMD;
  }

  /** A general sequence of two instructions would be a shifted 16-bit value,
      which an earlier rule has already claimed. */
  lemma GeneralCostsThree(rt: nat, imm: nat)
    requires TWO32 <= imm < TWO64 && !Shifted16(imm)
    ensures 3 <= |LoadGeneral(rt, imm)| <= 5
  {
    hide CountrZero, Shifted16, Pow2, EncodeD, EncodeMD, LoadGeneral;
    GeneralCost(rt, imm);
    var hi, lo := imm / TWO32, imm % TWO32;
    Powers();
    Pow2Add(32, 16);
    if lo == 0 && hi <= 0x7FFF {
      WordShiftIsShifted16(imm, hi, 32);
    }
    if lo == 0 && hi > 0x7FFF && hi % TWO16 == 0 {
      WordShiftIsShifted16(imm, hi / TWO16, 48);
    }
  }

  lemma Shifted31Fits(imm: nat)
    requires imm > 0 && Shifted31(imm)
    ensures Shr(imm, CountrZero(imm)) < TWO32
  {
  }

  lemma LoadImm32Cost(rt: nat, imm: nat)
    ensures 1 <= |LoadImm32(rt, imm)| <= 2
  {
    hide EncodeD;
  }

  /** Never more than five instructions, and the shifted-32 rule never makes a
      sequence longer than switching it off would. */
  lemma LoadImm64Cost(rt: nat, imm: nat, noShifted32: bool)
    requires imm < TWO64
    ensures 1 <= |LoadImm64(rt, imm, noShifted32)| <= 5
    ensures |LoadImm64(rt, imm, false)| <= |LoadImm64(rt, imm, true)|
  {
    hide CountrZero, Shr, Pow2, LoadImm32, Shifted16, ContiguousOnes, Shifted31, LoadGeneral, EncodeD, EncodeMD;
    if imm == 0 || imm <= 0x7FFF_FFFF || imm >= 0xFFFF_FFFF_8000_0000 {
      LoadImm32Cost(rt, imm % TWO32);
    } else if imm <= 0xFFFF_FFFF {
      LoadImm32Cost(rt, imm);
    } else {
      Powers();
      CountrZeroBound(imm, 64);
      LoadImm32Cost(rt, Shr(imm, CountrZero(imm)));
      if !Shifted16(imm) { GeneralCostsThree(rt, imm); }
    }
  }
}
