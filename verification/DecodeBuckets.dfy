/** The bucket index of the decode table: which bits of a word select a bucket,
    which buckets an entry is reachable from, and how the buckets are filled. */
module DecodeBuckets {
  import opened Bits
  import opened DecodeEntries

  /** The 14-bit index in use and the 12-bit one it replaced. */
  datatype Variant = Index12 | Index14 {
    function Width(): nat { if Index12? then 12 else 14 }

    function Count(): nat { if Index12? then 0x1000 else 0x4000 }

    function HighMask(): nat { if Index12? then 0xFF0 else 0x3FF0 }
  }

  /** Word bits [13:10] and, above them, bits [29:22] or [31:22]. */
  function LookupIndex(v: Variant, w: nat): nat {
    BitOr(BitAnd(w / 0x400, 0x00F), BitAnd(w / 0x40000, v.HighMask()))
  }

  /** The index bits an entry fixes agree with index i. */
  predicate Agrees(v: Variant, e: Entry, i: nat) {
    BitAnd(i, LookupIndex(v, e.mask)) == LookupIndex(v, e.expected)
  }

  lemma LowMaskBits(k: nat)
    ensures Bit(0xF, k) == (k < 4)
  {
    if k >= 4 {
      assert Pow2(4) == 16;
      HighBitsClear(0xF, 4, k);
    } else {
      assert k == 0 || k == 1 || k == 2 || k == 3;
    }
  }

  /** A run of n ones. */
  lemma {:induction false} OnesBits(n: nat, k: nat)
    ensures Bit(Pow2(n) - 1, k) == (k < n)
  {
    if n == 0 {
      ZeroBit(k);
    } else if k > 0 {
      assert (Pow2(n) - 1) / 2 == Pow2(n - 1) - 1;
      OnesBits(n - 1, k - 1);
    }
  }

  lemma HighMaskBits(v: Variant, k: nat)
    ensures Bit(v.HighMask(), k) == (4 <= k < v.Width())
  {
    var n := v.Width() - 4;
    PowersOfTwo();
    assert v.HighMask() == 16 * (Pow2(n) - 1);
    if k < 4 {
      var h := v.HighMask();
      assert !Bit(h / 8, 0) && !Bit(h / 4, 0) && !Bit(h / 2, 0) && !Bit(h, 0);
      assert !Bit(h / 4, 1) && !Bit(h / 2, 1) && !Bit(h, 1);
      assert !Bit(h / 2, 2) && !Bit(h, 2);
    } else {
      assert Bit(v.HighMask(), k) == Bit(v.HighMask() / 2, k - 1) == Bit(v.HighMask() / 4, k - 2);
      assert Bit(v.HighMask() / 4, k - 2) == Bit(v.HighMask() / 8, k - 3) == Bit(v.HighMask() / 16, k - 4);
      OnesBits(n, k - 4);
    }
  }

  lemma PowersOfTwo()
    ensures Pow2(8) == 0x100 && Pow2(10) == 0x400 && Pow2(12) == 0x1000 && Pow2(14) == 0x4000 && Pow2(18) == 0x40000
  {
    Pow2Add(4, 4);
    assert Pow2(4) == 16 && Pow2(2) == 4;
    Pow2Add(8, 2);
    Pow2Add(8, 4);
    Pow2Add(10, 4);
    Pow2Add(10, 8);
  }

  /** The bits of an index, in terms of the bits of the word. */
  lemma IndexBit(v: Variant, w: nat, k: nat)
    ensures Bit(LookupIndex(v, w), k) == if k < 4 then Bit(w, k + 10) else k < v.Width() && Bit(w, k + 18)
  {
    OrBit(BitAnd(w / 0x400, 0x00F), BitAnd(w / 0x40000, v.HighMask()), k);
    AndBit(w / 0x400, 0x00F, k);
    AndBit(w / 0x40000, v.HighMask(), k);
    LowMaskBits(k);
    HighMaskBits(v, k);
    PowersOfTwo();
    ShrIsDiv(w, 10);
    ShrIsDiv(w, 18);
    ShrBit(w, 10, k);
    ShrBit(w, 18, k);
  }

  lemma IndexInRange(v: Variant, w: nat)
    ensures LookupIndex(v, w) < v.Count()
  {
    forall k: nat | k >= v.Width() ensures !Bit(LookupIndex(v, w), k) { IndexBit(v, w, k); }
    BoundedByBits(LookupIndex(v, w), v.Width());
    PowersOfTwo();
  }

  /** A word that matches an entry selects a bucket the entry is reachable from. */
  lemma MatchAgrees(v: Variant, e: Entry, w: nat)
    requires e.Matches(w)
    ensures Agrees(v, e, LookupIndex(v, w))
  {
    forall k: nat
      ensures Bit(BitAnd(LookupIndex(v, w), LookupIndex(v, e.mask)), k) == Bit(LookupIndex(v, e.expected), k)
    {
      AndBit(LookupIndex(v, w), LookupIndex(v, e.mask), k);
      IndexBit(v, w, k);
      IndexBit(v, e.mask, k);
      IndexBit(v, e.expected, k);
      MatchedBit(e, w, k + 10);
      MatchedBit(e, w, k + 18);
    }
    Extensional(BitAnd(LookupIndex(v, w), LookupIndex(v, e.mask)), LookupIndex(v, e.expected));
  }

  // ----- the submask loop

  /** One step of the loop goes to the next smaller submask: nothing between
      is a submask. */
  lemma {:induction false} NextSubmask(sub: nat, free: nat, t: nat)
    requires BitAnd(sub, free) == sub && sub > 0 && BitAnd(t, free) == t
    ensures BitAnd(sub - 1, free) < sub
    ensures BitAnd(BitAnd(sub - 1, free), free) == BitAnd(sub - 1, free)
    ensures t < sub ==> t <= BitAnd(sub - 1, free)
    decreases sub
  {
    AndIdempotent(sub - 1, free);
    HalveSubmask(sub, free);
    HalveSubmask(t, free);
    if sub % 2 == 1 {
      assert (sub - 1) / 2 == sub / 2;
    } else {
      assert (sub - 1) / 2 == sub / 2 - 1 && (sub - 1) % 2 == 1;
      NextSubmask(sub / 2, free / 2, t / 2);
      AndStep(sub - 1, free);
    }
  }

  lemma HalveSubmask(s: nat, f: nat)
    requires BitAnd(s, f) == s
    ensures BitAnd(s / 2, f / 2) == s / 2 && (s % 2 == 1 ==> f % 2 == 1)
  {
    AndStep(s, f);
  }

  lemma AndIdempotent(a: nat, f: nat)
    ensures BitAnd(BitAnd(a, f), f) == BitAnd(a, f)
  {
    forall k: nat ensures Bit(BitAnd(BitAnd(a, f), f), k) == Bit(BitAnd(a, f), k) {
      AndBit(BitAnd(a, f), f, k);
      AndBit(a, f, k);
    }
    Extensional(BitAnd(BitAnd(a, f), f), BitAnd(a, f));
  }

  /** The complement of `fixed` within the index width. */
  function FreeBits(v: Variant, fixed: nat): (free: nat)
    ensures forall k: nat :: Bit(free, k) == (k < v.Width() && !Bit(fixed, k))
  {
    var ones := v.Count() - 1;
    assert forall k: nat :: Bit(BitXor(ones, BitAnd(fixed, ones)), k) == (k < v.Width() && !Bit(fixed, k)) by {
      forall k: nat ensures Bit(BitXor(ones, BitAnd(fixed, ones)), k) == (k < v.Width() && !Bit(fixed, k)) {
        PowersOfTwo();
        OnesBits(v.Width(), k);
        XorBit(ones, BitAnd(fixed, ones), k);
        AndBit(fixed, ones, k);
      }
    }
    BitXor(ones, BitAnd(fixed, ones))
  }

  /** Of the indices in range, those that agree with an entry are exactly the
      values want | s for s a submask of the free bits. */
  lemma AgreesIffSubmask(v: Variant, e: Entry, i: nat)
    requires e.Valid() && i < v.Count()
    ensures var fixed, want := LookupIndex(v, e.mask), LookupIndex(v, e.expected);
            var free := FreeBits(v, fixed);
            && BitAnd(BitAnd(i, free), free) == BitAnd(i, free)
            && (Agrees(v, e, i) <==> BitOr(want, BitAnd(i, free)) == i)
  {
    var fixed, want := LookupIndex(v, e.mask), LookupIndex(v, e.expected);
    var free := FreeBits(v, fixed);
    AndIdempotent(i, free);
    forall k: nat
      ensures Bit(want, k) ==> Bit(fixed, k) && k < v.Width()
      ensures Bit(BitAnd(i, fixed), k) == (Bit(i, k) && Bit(fixed, k))
      ensures Bit(BitOr(want, BitAnd(i, free)), k) == (Bit(want, k) || (Bit(i, k) && Bit(free, k)))
      ensures Bit(i, k) ==> k < v.Width()
    {
      AndBit(i, fixed, k);
      AndBit(i, free, k);
      OrBit(want, BitAnd(i, free), k);
      WantIsFixed(v, e, k);
      PowersOfTwo();
      if k >= v.Width() { HighBitsClear(i, v.Width(), k); }
    }
    if Agrees(v, e, i) {
      Extensional(BitOr(want, BitAnd(i, free)), i);
    }
    if BitOr(want, BitAnd(i, free)) == i {
      Extensional(BitAnd(i, fixed), want);
    }
  }

  lemma WantIsFixed(v: Variant, e: Entry, k: nat)
    requires e.Valid()
    ensures Bit(LookupIndex(v, e.expected), k) ==> Bit(LookupIndex(v, e.mask), k) && k < v.Width()
  {
    IndexBit(v, e.mask, k);
    IndexBit(v, e.expected, k);
    assert Bit(e.expected, k + 10) ==> Bit(e.mask, k + 10);
    assert Bit(e.expected, k + 18) ==> Bit(e.mask, k + 18);
  }

  /** want | s for a submask s of the free bits: in range, agreeing with the
      entry, and s is read back off it. */
  lemma SubmaskAgrees(v: Variant, e: Entry, s: nat)
    requires e.Valid() && BitAnd(s, FreeBits(v, LookupIndex(v, e.mask))) == s
    ensures var i := BitOr(LookupIndex(v, e.expected), s);
            && i < v.Count() && Agrees(v, e, i)
            && BitAnd(i, FreeBits(v, LookupIndex(v, e.mask))) == s
            && i == LookupIndex(v, e.expected) + s
  {
    var fixed, want := LookupIndex(v, e.mask), LookupIndex(v, e.expected);
    var free := FreeBits(v, fixed);
    var i := BitOr(want, s);
    forall k: nat
      ensures Bit(i, k) ==> k < v.Width()
      ensures Bit(BitAnd(i, free), k) == Bit(s, k)
      ensures !(Bit(want, k) && Bit(s, k))
    {
      OrBit(want, s, k);
      AndBit(i, free, k);
      AndBit(s, free, k);
      WantIsFixed(v, e, k);
    }
    BoundedByBits(i, v.Width());
    PowersOfTwo();
    Extensional(BitAnd(i, free), s);
    AgreesIffSubmask(v, e, i);
    OrIsSum(want, s);
  }

  lemma {:induction false} OrIsSum(a: nat, b: nat)
    requires forall k: nat :: !(Bit(a, k) && Bit(b, k))
    ensures BitOr(a, b) == a + b
    decreases a + b
  {
    if a != 0 && b != 0 {
      assert !(Bit(a, 0) && Bit(b, 0));
      forall k: nat ensures !(Bit(a / 2, k) && Bit(b / 2, k)) {
        assert !(Bit(a, k + 1) && Bit(b, k + 1));
      }
      OrIsSum(a / 2, b / 2);
    }
  }

  ghost predicate StrictlyDescending(s: seq<nat>) {
    forall i, j :: 0 <= i < j < |s| ==> s[i] > s[j]
  }

  /** Every index an entry can be reached from, each exactly once. */
  method ReachableBuckets(v: Variant, e: Entry) returns (out: seq<nat>)
    requires e.Valid()
    ensures forall i: nat :: i in out <==> i < v.Count() && Agrees(v, e, i)
    ensures StrictlyDescending(out)
  {
    var fixed := LookupIndex(v, e.mask);
    var want := LookupIndex(v, e.expected);
    var free := FreeBits(v, fixed);
    var sub := free;
    out := [];
    AndSelf(free);
    while true
      invariant BitAnd(sub, free) == sub
      invariant forall i: nat :: i in out <==> i < v.Count() && Agrees(v, e, i) && BitAnd(i, free) > sub
      invariant forall k :: 0 <= k < |out| ==> out[k] > want + sub
      invariant StrictlyDescending(out)
      decreases sub
    {
      SubmaskAgrees(v, e, sub);
      ghost var was := out;
      out := out + [BitOr(want, sub)];
      forall i: nat
        ensures i in out <==> i < v.Count() && Agrees(v, e, i) && BitAnd(i, free) >= sub
      {
        assert i in out <==> i in was || i == BitOr(want, sub);
        if i < v.Count() && Agrees(v, e, i) { AgreesIffSubmask(v, e, i); }
      }
      if sub == 0 {
        return;
      }
      forall i: nat | i < v.Count()
        ensures BitAnd(i, free) >= sub <==> BitAnd(i, free) > BitAnd(sub - 1, free)
      {
        AndIdempotent(i, free);
        NextSubmask(sub, free, BitAnd(i, free));
      }
      NextSubmask(sub, free, sub);
      sub := BitAnd(sub - 1, free);
    }
  }

  lemma AndSelf(a: nat)
    ensures BitAnd(a, a) == a
    ensures forall i: nat :: BitAnd(i, a) <= a
  {
    forall k: nat ensures Bit(BitAnd(a, a), k) == Bit(a, k) { AndBit(a, a, k); }
    Extensional(BitAnd(a, a), a);
    forall i: nat ensures BitAnd(i, a) <= a { AndAtMost(i, a); }
  }

  lemma {:induction false} AndAtMost(i: nat, a: nat)
    ensures BitAnd(i, a) <= a
    decreases i
  {
    if i != 0 && a != 0 { AndAtMost(i / 2, a / 2); }
  }

  // ----- filling the buckets

  /** Bucket i: the entries reachable from index i, in scan order. */
  function Bucket(v: Variant, order: seq<Entry>, i: nat): seq<Entry> {
    if order == [] then []
    else
      var rest := Bucket(v, order[..|order| - 1], i);
      if Agrees(v, order[|order| - 1], i) then rest + [order[|order| - 1]] else rest
  }

  /** Appends each entry to every bucket it is reachable from. */
  method BuildBuckets(v: Variant, order: seq<Entry>) returns (buckets: seq<seq<Entry>>)
    requires AllValid(order)
    ensures |buckets| == v.Count()
    ensures forall i :: 0 <= i < v.Count() ==> buckets[i] == Bucket(v, order, i)
  {
    buckets := seq(v.Count(), _ => []);
    for n := 0 to |order|
      invariant |buckets| == v.Count()
      invariant forall i :: 0 <= i < v.Count() ==> buckets[i] == Bucket(v, order[..n], i)
    {
      var e := order[n];
      var reachable := ReachableBuckets(v, e);
      ghost var before := buckets;
      for m := 0 to |reachable|
        invariant |buckets| == v.Count()
        invariant forall i :: 0 <= i < v.Count() ==>
            buckets[i] == if i in reachable[..m] then before[i] + [e] else before[i]
      {
        var i := reachable[m];
        assert i in reachable;
        assert i !in reachable[..m];
        buckets := buckets[i := buckets[i] + [e]];
        assert reachable[..m + 1] == reachable[..m] + [i];
      }
      assert reachable[..|reachable|] == reachable;
      assert order[..n + 1][..n] == order[..n];
    }
    assert order[..|order|] == order;
  }

  /** Nothing a word matches is missing from the bucket it selects, and the
      bucket keeps the scan order: the matching entries are the same sequence. */
  lemma {:induction false} BucketKeepsHits(v: Variant, order: seq<Entry>, w: nat)
    ensures Hits(Bucket(v, order, LookupIndex(v, w)), w) == Hits(order, w)
    decreases |order|
  {
    if order != [] {
      var init, last := order[..|order| - 1], order[|order| - 1];
      var i := LookupIndex(v, w);
      BucketKeepsHits(v, init, w);
      assert order == init + [last];
      HitsConcat(init, [last], w);
      HitsConcat(Bucket(v, init, i), [last], w);
      if last.Matches(w) { MatchAgrees(v, last, w); }
    }
  }

  /** The 12-bit and the 14-bit index find the same entry for every word. */
  lemma SameWinnerUnderEitherIndex(order: seq<Entry>, w: nat)
    ensures FirstMatch(Bucket(Index12, order, LookupIndex(Index12, w)), w)
         == FirstMatch(Bucket(Index14, order, LookupIndex(Index14, w)), w)
         == FirstMatch(order, w)
  {
    BucketKeepsHits(Index12, order, w);
    BucketKeepsHits(Index14, order, w);
    FirstMatchIsFirstHit(Bucket(Index12, order, LookupIndex(Index12, w)), w);
    FirstMatchIsFirstHit(Bucket(Index14, order, LookupIndex(Index14, w)), w);
    FirstMatchIsFirstHit(order, w);
  }
}
