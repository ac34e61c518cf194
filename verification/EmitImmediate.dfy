/** The immediate loader as the emitter runs it: one instruction at a time, in
    the order of the source's branches. */
module EmitImmediate {
  import opened BranchPatching
  import opened Emitter
  import Bits
  import PowerIsa
  import L = LoadImmediate

  /** A run of plain words. */
  function Words(ws: seq<nat>): Program { seq(|ws|, i requires 0 <= i < |ws| => Raw(ws[i])) }

  lemma EncodedFits(op: nat, rt: nat, ra: nat, d: nat)
    requires op < 64 && rt < 32 && ra < 32 && d < PowerIsa.TWO16
    ensures PowerIsa.EncodeD(op, rt, ra, d) < WORD
  {
    hide PowerIsa.EncodeD;
    PowerIsa.EncodeDIsSum(op, rt, ra, d);
  }

  lemma EncodedMDFits(rs: nat, ra: nat, sh: nat, m: nat, xo: nat, rc: nat)
    requires rs < 32 && ra < 32 && sh < 64 && m < 64 && xo < 8 && rc < 2
    ensures PowerIsa.EncodeMD(rs, ra, sh, m, xo, rc) < WORD
  {
    hide PowerIsa.EncodeMD;
    PowerIsa.EncodeMDIsSum(rs, ra, sh, m, xo, rc);
  }

  /** Emits a D-form instruction. */
  method EmitD(e: Emitter, op: nat, rt: nat, ra: nat, d: nat)
    requires e.Valid() && e.offset + 4 <= e.buffer.Length
    requires op < 64 && rt < 32 && ra < 32 && d < PowerIsa.TWO16
    modifies e`offset, e`r0MaybeDirty, e`program, e.buffer
    ensures e.offset == old(e.offset) + 4
    ensures e.Valid() && e.program == old(e.program) + Words([PowerIsa.EncodeD(op, rt, ra, d)])
  {
    hide PowerIsa.EncodeD;
    EncodedFits(op, rt, ra, d);
    e.Emit32(PowerIsa.EncodeD(op, rt, ra, d));
  }

  /** Emits an MD-form instruction. */
  method EmitMD(e: Emitter, rs: nat, ra: nat, sh: nat, m: nat, xo: nat, rc: nat)
    requires e.Valid() && e.offset + 4 <= e.buffer.Length
    requires rs < 32 && ra < 32 && sh < 64 && m < 64 && xo < 8 && rc < 2
    modifies e`offset, e`r0MaybeDirty, e`program, e.buffer
    ensures e.offset == old(e.offset) + 4
    ensures e.Valid() && e.program == old(e.program) + Words([PowerIsa.EncodeMD(rs, ra, sh, m, xo, rc)])
  {
    hide PowerIsa.EncodeMD;
    EncodedMDFits(rs, ra, sh, m, xo, rc);
    e.Emit32(PowerIsa.EncodeMD(rs, ra, sh, m, xo, rc));
  }

  /** li, or lis and, when the low half is not zero, ori. */
  method LoadImm32(e: Emitter, rt: nat, imm: nat)
    requires e.Valid() && rt < 32 && imm < PowerIsa.TWO32
    requires e.offset + 4 * |L.LoadImm32(rt, imm)| <= e.buffer.Length
    modifies e`offset, e`r0MaybeDirty, e`program, e.buffer
    ensures e.offset == old(e.offset) + 4 * |L.LoadImm32(rt, imm)|
    ensures e.Valid() && e.program == old(e.program) + Words(L.LoadImm32(rt, imm))
  {
    hide PowerIsa.EncodeD, e.Valid;
    var simm := Bits.AsInt32(imm);
    if -0x8000 <= simm < 0x8000 {
      EmitD(e, 14, rt, 0, Field(simm));
    } else {
      EmitD(e, 15, rt, 0, Field(L.AsInt16(imm / PowerIsa.TWO16)));
      if imm % PowerIsa.TWO16 != 0 {
        EmitD(e, 24, rt, rt, imm % PowerIsa.TWO16);
      }
    }
  }

  /** The high half, in one instruction when it can be. */
  method LoadHigh(e: Emitter, rt: nat, hi: nat)
    requires e.Valid() && rt < 32 && hi < PowerIsa.TWO32
    requires e.offset + 4 * |L.LoadHigh(rt, hi)| <= e.buffer.Length
    modifies e`offset, e`r0MaybeDirty, e`program, e.buffer
    ensures e.offset == old(e.offset) + 4 * |L.LoadHigh(rt, hi)|
    ensures e.Valid() && e.program == old(e.program) + Words(L.LoadHigh(rt, hi))
  {
    hide PowerIsa.EncodeD, PowerIsa.Field16, L.AsInt16, e.Valid;
    if hi != 0 {
      if hi <= 0x7FFF {
        EmitD(e, 14, rt, 0, Field(hi));
      } else {
        EmitD(e, 15, rt, 0, Field(L.AsInt16(hi / PowerIsa.TWO16)));
        if hi % PowerIsa.TWO16 != 0 {
          EmitD(e, 24, rt, rt, hi % PowerIsa.TWO16);
        }
      }
    } else {
      EmitD(e, 14, rt, 0, Field(0));
    }
  }

  /** The high half, shifted into place, then the low half or-ed in. */
  method LoadGeneral(e: Emitter, rt: nat, imm: nat)
    requires e.Valid() && rt < 32 && imm < PowerIsa.TWO64
    requires e.offset + 4 * |L.LoadGeneral(rt, imm)| <= e.buffer.Length
    modifies e`offset, e`r0MaybeDirty, e`program, e.buffer
    ensures e.Valid() && e.program == old(e.program) + Words(L.LoadGeneral(rt, imm))
  {
    hide PowerIsa.EncodeD, PowerIsa.EncodeMD, L.LoadHigh, e.Valid;
    var hi := imm / PowerIsa.TWO32;
    var lo := imm % PowerIsa.TWO32;
    LoadHigh(e, rt, hi);
    EmitMD(e, rt, rt, 32, 31, 1, 0);
    if lo / PowerIsa.TWO16 != 0 {
      EmitD(e, 25, rt, rt, lo / PowerIsa.TWO16);
    }
    if lo % PowerIsa.TWO16 != 0 {
      EmitD(e, 24, rt, rt, lo % PowerIsa.TWO16);
    }
  }

  function Field(si: int): (f: nat)
    ensures f == PowerIsa.Field16(si) && f < PowerIsa.TWO16
  {
    PowerIsa.Field16(si)
  }

  /** Emits the shortest sequence the rules give; executing it on any register
      file leaves imm in rt and nothing else changed. */
  method LoadImm64(e: Emitter, rt: nat, imm: nat, noShifted32: bool)
    requires e.Valid() && rt < 32 && imm < PowerIsa.TWO64
    requires e.offset + 4 * |L.LoadImm64(rt, imm, noShifted32)| <= e.buffer.Length
    modifies e`offset, e`r0MaybeDirty, e`program, e.buffer
    ensures e.Valid() && e.program == old(e.program) + Words(L.LoadImm64(rt, imm, noShifted32))
    ensures forall regs: PowerIsa.Regs :: PowerIsa.Run(L.LoadImm64(rt, imm, noShifted32), regs) == regs[rt := imm]
  {
    hide PowerIsa.EncodeD, PowerIsa.EncodeMD, PowerIsa.Field16, PowerIsa.Run, e.Valid, L.LoadImm32, L.LoadGeneral,
         L.CountrZero, L.Shifted16, L.ContiguousOnes, L.Shifted31, L.AsInt64, L.CountlZeroNat, Bits.Pow2, Bits.Shr;
    forall regs: PowerIsa.Regs
      ensures PowerIsa.Run(L.LoadImm64(rt, imm, noShifted32), regs) == regs[rt := imm]
    {
      L.LoadImm64Correct(rt, imm, noShifted32, regs);
    }
    if imm == 0 {
      EmitD(e, 14, rt, 0, Field(0));
      return;
    }
    if imm <= 0x7FFF_FFFF || imm >= 0xFFFF_FFFF_8000_0000 {
      LoadImm32(e, rt, imm % PowerIsa.TWO32);
      return;
    }
    if imm <= 0xFFFF_FFFF {
      LoadImm32(e, rt, imm);
      EmitMD(e, rt, rt, 0, 32, 0, 0);
      return;
    }
    PowerIsa.Powers();
    L.CountrZeroBound(imm, 64);
    var tz := L.CountrZero(imm);
    if L.Shifted16(imm) {
      EmitD(e, 14, rt, 0, Field(L.AsInt64(imm) / Bits.Pow2(tz)));
      EmitMD(e, rt, rt, tz, 63 - tz, 1, 0);
      return;
    }
    if L.ContiguousOnes(imm) {
      EmitD(e, 14, rt, 0, Field(-1));
      LeadingZeros(imm);
      EmitMD(e, rt, rt, tz, L.CountlZeroNat(imm), 2, 0);
      return;
    }
    if !noShifted32 && L.Shifted31(imm) {
      L.Shifted31Fits(imm);
      LoadImm32(e, rt, Bits.Shr(imm, tz));
      EmitMD(e, rt, rt, tz, 63 - tz, 1, 0);
      return;
    }
    LoadGeneral(e, rt, imm);
  }

  lemma LeadingZeros(imm: nat)
    requires 0 < imm
    ensures L.CountlZeroNat(imm) < 64
  {
  }

  /** The relocation form: always five instructions. */
  method LoadImm64Fixed(e: Emitter, rt: nat, imm: nat)
    requires e.Valid() && rt < 32 && imm < PowerIsa.TWO64 && e.offset + 20 <= e.buffer.Length
    modifies e`offset, e`r0MaybeDirty, e`program, e.buffer
    ensures e.Valid() && e.offset == old(e.offset) + 20
    ensures e.program == old(e.program) + Words(L.LoadImm64Fixed(rt, imm))
  {
    hide PowerIsa.EncodeD, PowerIsa.EncodeMD, PowerIsa.Field16, L.AsInt16, e.Valid;
    var hi := imm / PowerIsa.TWO32;
    var lo := imm % PowerIsa.TWO32;
    EmitD(e, 15, rt, 0, Field(L.AsInt16(hi / PowerIsa.TWO16)));
    EmitD(e, 24, rt, rt, hi % PowerIsa.TWO16);
    EmitMD(e, rt, rt, 32, 31, 1, 0);
    EmitD(e, 25, rt, rt, lo / PowerIsa.TWO16);
    EmitD(e, 24, rt, rt, lo % PowerIsa.TWO16);
  }
}
