/** Entries of the A64 decode table: what a 32-character bitstring means, the
    mask/expected pair derived from it, and which words match. */
module DecodeEntries {
  import opened Options
  import opened Bits

  /** The identity of an entry across edits of the instruction list. */
  type Key = (string, string)

  const WORD_BITS: nat := 32

  /** One active instruction-list entry. */
  datatype Entry = Entry(raw: nat, name: string, desc: string, bits: string, mask: nat, expected: nat) {
    function Key(): Key { (name, bits) }

    /** `mask` and `expected` are the fixed positions of `bits` and their values:
        the leftmost character is bit 31, and only '0' and '1' are fixed. */
    ghost predicate Valid() {
      && |bits| == WORD_BITS
      && forall k: nat ::
           && Bit(mask, k) == (k < WORD_BITS && bits[31 - k] in {'0', '1'})
           && Bit(expected, k) == (k < WORD_BITS && bits[31 - k] == '1')
    }

    /** The test the decoder performs on a word. */
    predicate Matches(w: nat) {
      BitAnd(w, mask) == expected
    }
  }

  ghost predicate AllValid(es: seq<Entry>) {
    forall i :: 0 <= i < |es| ==> es[i].Valid()
  }

  /** Builds an entry from its bitstring, refusing one that is not 32 characters. */
  method MakeEntry(raw: nat, name: string, desc: string, bits: string) returns (r: Result<Entry>)
    ensures r.Success? <==> |bits| == WORD_BITS
    ensures r.Success? ==>
      && r.value.Valid()
      && r.value.raw == raw && r.value.name == name && r.value.desc == desc && r.value.bits == bits
  {
    if |bits| != WORD_BITS {
      return Failure("entry is not 32 bits");
    }
    var mask, wanted := 0, 0;
    var i := 0;
    forall k: nat ensures !Bit(0, k) { ZeroBit(k); }
    while i < |bits|
      invariant 0 <= i <= |bits|
      invariant forall k: nat ::
          && Bit(mask, k) == (31 - i < k < WORD_BITS && bits[31 - k] in {'0', '1'})
          && Bit(wanted, k) == (31 - i < k < WORD_BITS && bits[31 - k] == '1')
    {
      var bit := Pow2(31 - i);
      ghost var oldMask, oldWanted := mask, wanted;
      if bits[i] == '0' {
        mask := BitOr(mask, bit);
      } else if bits[i] == '1' {
        mask := BitOr(mask, bit);
        wanted := BitOr(wanted, bit);
      }
      forall k: nat
        ensures Bit(BitOr(oldMask, bit), k) == (Bit(oldMask, k) || k == 31 - i)
        ensures Bit(BitOr(oldWanted, bit), k) == (Bit(oldWanted, k) || k == 31 - i)
      {
        OrBit(oldMask, bit, k);
        OrBit(oldWanted, bit, k);
        SingleBit(31 - i, k);
      }
      i := i + 1;
    }
    return Success(Entry(raw, name, desc, bits, mask, wanted));
  }

  /** The word has the bits the pattern fixes, read straight off the string. */
  predicate FitsPattern(bits: string, w: nat) {
    forall i :: 0 <= i < |bits| && i < WORD_BITS ==>
      && (bits[i] == '0' ==> !Bit(w, 31 - i))
      && (bits[i] == '1' ==> Bit(w, 31 - i))
  }

  /** The mask test is the pattern: a word passes it exactly when every fixed
      character of the bitstring agrees with the word. */
  lemma MatchesIffFitsPattern(e: Entry, w: nat)
    requires e.Valid()
    ensures e.Matches(w) <==> FitsPattern(e.bits, w)
  {
    if e.Matches(w) {
      forall i | 0 <= i < WORD_BITS
        ensures (e.bits[i] == '0' ==> !Bit(w, 31 - i)) && (e.bits[i] == '1' ==> Bit(w, 31 - i))
      {
        MatchedBit(e, w, 31 - i);
        assert e.bits[31 - (31 - i)] == e.bits[i];
      }
    }
    if FitsPattern(e.bits, w) {
      forall k: nat ensures Bit(BitAnd(w, e.mask), k) == Bit(e.expected, k) {
        AndBit(w, e.mask, k);
        if k < WORD_BITS { assert e.bits[31 - k] == '0' || e.bits[31 - k] == '1' || !Bit(e.mask, k); }
      }
      Extensional(BitAnd(w, e.mask), e.expected);
    }
  }

  lemma MatchedBit(e: Entry, w: nat, k: nat)
    requires e.Matches(w)
    ensures Bit(e.expected, k) == (Bit(w, k) && Bit(e.mask, k))
  {
    AndBit(w, e.mask, k);
  }

  /** True when the two patterns fix some bit to different values. */
  predicate Disjoint(a: Entry, b: Entry) {
    BitAnd(BitAnd(BitXor(a.expected, b.expected), a.mask), b.mask) != 0
  }

  lemma DisjointBit(a: Entry, b: Entry, k: nat)
    ensures Bit(BitAnd(BitAnd(BitXor(a.expected, b.expected), a.mask), b.mask), k)
        == ((Bit(a.expected, k) != Bit(b.expected, k)) && Bit(a.mask, k) && Bit(b.mask, k))
  {
    AndBit(BitAnd(BitXor(a.expected, b.expected), a.mask), b.mask, k);
    AndBit(BitXor(a.expected, b.expected), a.mask, k);
    XorBit(a.expected, b.expected, k);
  }

  /** Disjoint patterns have no word in common, whatever its width. */
  lemma DisjointSound(a: Entry, b: Entry, w: nat)
    requires Disjoint(a, b)
    ensures !(a.Matches(w) && b.Matches(w))
  {
    var k := SomeBit(BitAnd(BitAnd(BitXor(a.expected, b.expected), a.mask), b.mask));
    DisjointBit(a, b, k);
    if a.Matches(w) && b.Matches(w) {
      MatchedBit(a, w, k);
      MatchedBit(b, w, k);
    }
  }

  /** The test is exact, not just sufficient: patterns that are not disjoint
      share a 32-bit word. */
  lemma DisjointExact(a: Entry, b: Entry)
    requires a.Valid() && b.Valid()
    ensures Disjoint(a, b) <==> !exists w: nat :: w < Pow2(WORD_BITS) && a.Matches(w) && b.Matches(w)
  {
    forall w: nat | Disjoint(a, b) ensures !(a.Matches(w) && b.Matches(w)) {
      DisjointSound(a, b, w);
    }
    if !Disjoint(a, b) {
      var w := BitOr(a.expected, b.expected);
      forall k: nat
        ensures Bit(BitAnd(w, a.mask), k) == Bit(a.expected, k)
        ensures Bit(BitAnd(w, b.mask), k) == Bit(b.expected, k)
        ensures k >= WORD_BITS ==> !Bit(w, k)
      {
        ZeroBit(k);
        DisjointBit(a, b, k);
        OrBit(a.expected, b.expected, k);
        AndBit(w, a.mask, k);
        AndBit(w, b.mask, k);
      }
      Extensional(BitAnd(w, a.mask), a.expected);
      Extensional(BitAnd(w, b.mask), b.expected);
      BoundedByBits(w, WORD_BITS);
      assert a.Matches(w) && b.Matches(w);
    }
  }

  /** The entries of a list that match a word, in list order. */
  function Hits(es: seq<Entry>, w: nat): seq<Entry> {
    if es == [] then []
    else (if es[0].Matches(w) then [es[0]] else []) + Hits(es[1..], w)
  }

  /** What a linear scan returns. */
  function FirstMatch(es: seq<Entry>, w: nat): Option<Entry> {
    if es == [] then None
    else if es[0].Matches(w) then Some(es[0])
    else FirstMatch(es[1..], w)
  }

  lemma {:induction false} FirstMatchIsFirstHit(es: seq<Entry>, w: nat)
    ensures FirstMatch(es, w) == if Hits(es, w) == [] then None else Some(Hits(es, w)[0])
  {
    if es != [] { FirstMatchIsFirstHit(es[1..], w); }
  }

  lemma {:induction false} HitsConcat(a: seq<Entry>, b: seq<Entry>, w: nat)
    ensures Hits(a + b, w) == Hits(a, w) + Hits(b, w)
  {
    hide Entry.Matches;
    if a == [] {
      assert a + b == b;
    } else {
      HitsConcat(a[1..], b, w);
      assert (a + b)[1..] == a[1..] + b;
    }
  }

  /** A list and any position in it at which the scan first matches. */
  lemma {:induction false} FirstMatchAt(es: seq<Entry>, w: nat, i: nat)
    requires i < |es| && es[i].Matches(w)
    requires forall j :: 0 <= j < i ==> !es[j].Matches(w)
    ensures FirstMatch(es, w) == Some(es[i])
  {
    if i > 0 { FirstMatchAt(es[1..], w, i - 1); }
  }

  lemma {:induction false} FirstMatchNone(es: seq<Entry>, w: nat)
    requires forall j :: 0 <= j < |es| ==> !es[j].Matches(w)
    ensures FirstMatch(es, w) == None
  {
    if es != [] { FirstMatchNone(es[1..], w); }
  }

  lemma {:induction false} SingleBit(n: nat, k: nat)
    ensures Bit(Pow2(n), k) == (k == n)
    decreases n
  {
    if n == 0 {
      if k > 0 { ZeroBit(k - 1); }
    } else if k > 0 {
      SingleBit(n - 1, k - 1);
    }
  }
}
