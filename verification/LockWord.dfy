/** The 32-bit lock word of the guest protocol and the three operations on it. */
module LockWord {
  import opened Bits

  const WORD: nat := 0x1_0000_0000
  const FREE: nat := 0x8000_0000
  const HELD: nat := 0

  type Word = w: nat | w < WORD

  /** xadd of FREE: the word afterwards. */
  function Toggle(w: Word): Word { (w + FREE) % WORD }

  /** or with FREE. */
  function SetFree(w: Word): Word {
    SetFreeFits(w);
    BitOr(FREE, w)
  }

  /** Bits 0 to 30. */
  function Low31(w: Word): nat { BitAnd(w, 0x7FFF_FFFF) }

  lemma Pow31()
    ensures Pow2(31) == FREE && Pow2(1) == 2
  {
    assert Pow2(1) == 2 && Pow2(3) == 8;
    Pow2Add(3, 1);
    Pow2Add(4, 3);
    Pow2Add(7, 7);
    Pow2Add(14, 14);
    Pow2Add(28, 3);
  }

  /** Setting bit 31 as arithmetic. */
  lemma SetFreeValue(w: nat)
    requires w < WORD
    ensures BitOr(FREE, w) == if w < FREE then w + FREE else w
  {
    hide BitOr, Shl, Pow2;
    Pow31();
    ShlIsMul(1, 31);
    if w < FREE {
      OrLow(1, 31, w);
    } else {
      OrSplit(1, 0, 1, w - FREE, 31);
      OneOrOne();
    }
  }

  lemma OneOrOne()
    ensures BitOr(1, 1) == 1 && forall b :: BitOr(0, b) == b
  {
  }

  lemma SetFreeFits(w: nat)
    requires w < WORD
    ensures BitOr(FREE, w) < WORD
  {
    SetFreeValue(w);
  }

  lemma Low31Value(w: Word)
    ensures Low31(w) == if w < FREE then w else w - FREE
  {
    hide BitAnd, Shl, Pow2;
    Pow31();
    var top, low := if w < FREE then 0 else 1, if w < FREE then w else w - FREE;
    ShlIsMul(top, 31);
    ShlIsMul(0, 31);
    AndSplit(top, low, 0, FREE - 1, 31);
    AndOnes(low, 31);
    AndZero(top);
  }

  lemma {:induction false} HighPart(top: nat, low: nat, k: nat, i: nat)
    requires low < Pow2(k)
    ensures i < k ==> Bit(Shl(top, k) + low, i) == Bit(low, i)
    ensures i >= k ==> Bit(Shl(top, k) + low, i) == Bit(top, i - k)
    decreases k
  {
    if k > 0 && i > 0 {
      assert (Shl(top, k) + low) / 2 == Shl(top, k - 1) + low / 2;
      HighPart(top, low / 2, k - 1, i - 1);
    }
  }

  /** Adding FREE modulo 2^32 flips bit 31 and no other bit. */
  lemma ToggleFlipsOnlyBit31(w: Word, i: nat)
    requires i < 32
    ensures Bit(Toggle(w), i) == if i == 31 then !Bit(w, i) else Bit(w, i)
    ensures Toggle(Toggle(w)) == w
  {
    hide Bit, Shl, Pow2;
    Pow31();
    var top, low := if w < FREE then 0 else 1, if w < FREE then w else w - FREE;
    ShlIsMul(top, 31);
    ShlIsMul(1 - top, 31);
    HighPart(top, low, 31, i);
    HighPart(1 - top, low, 31, i);
    TopBit();
  }

  lemma TopBit()
    ensures Bit(1, 0) && !Bit(0, 0)
  {
  }

  /** Or-ing FREE sets bit 31, whatever it was, and no other bit. */
  lemma SetFreeSetsOnlyBit31(w: Word, i: nat)
    requires i < 32
    ensures Bit(SetFree(w), i) == (i == 31 || Bit(w, i))
    ensures SetFree(SetFree(w)) == SetFree(w)
  {
    hide Bit, Shl, Pow2, BitOr;
    SetFreeValue(w);
    SetFreeValue(SetFree(w));
    Pow31();
    var top, low := if w < FREE then 0 else 1, if w < FREE then w else w - FREE;
    ShlIsMul(top, 31);
    ShlIsMul(1, 31);
    HighPart(top, low, 31, i);
    HighPart(1, low, 31, i);
    TopBit();
  }
}
