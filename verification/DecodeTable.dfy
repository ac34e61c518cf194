/** The generated decode table and the decoder that reads it. */
module DecodeTable {
  import opened Options
  import opened DecodeEntries
  import opened DecodePriority
  import opened DecodeBuckets
  import opened DecodeReorder

  /** The two constant arrays: bucket i is slots[starts[i] .. starts[i + 1]). */
  datatype Table = Table(starts: seq<nat>, slots: seq<nat>)

  function Raws(es: seq<Entry>): seq<nat> {
    seq(|es|, i requires 0 <= i < |es| => es[i].raw)
  }

  /** Lays out a list of buckets: consecutive, in order, nothing between them. */
  ghost predicate LaysOut(t: Table, buckets: seq<seq<Entry>>, n: nat)
    requires n <= |buckets|
  {
    && |t.starts| == n + 1 && t.starts[0] == 0 && t.starts[n] == |t.slots|
    && (forall i :: 0 <= i <= n ==> t.starts[i] <= |t.slots|)
    && (forall i :: 0 <= i < n ==>
          t.starts[i] <= t.starts[i + 1] && t.slots[t.starts[i]..t.starts[i + 1]] == Raws(buckets[i]))
  }

  /** A bucket holds what the word's matches in priority order are, for every
      word that selects it. */
  ghost predicate Faithful(order: seq<Entry>, bucket: seq<Entry>, i: nat) {
    && (forall e :: e in bucket ==> e in order)
    && (forall w: nat :: LookupIndex(Index14, w) == i ==> Hits(bucket, w) == Hits(order, w))
  }

  /** The total number of slots the buckets need. */
  function SlotCount(buckets: seq<seq<Entry>>): nat {
    if buckets == [] then 0 else SlotCount(buckets[..|buckets| - 1]) + |buckets[|buckets| - 1]|
  }

  /** The buckets in priority order, before any frequency ordering. */
  function PlainBuckets(order: seq<Entry>): seq<seq<Entry>> {
    seq(Index14.Count(), i requires 0 <= i < Index14.Count() => Bucket(Index14, order, i))
  }

  lemma {:induction false} BucketMembers(v: Variant, order: seq<Entry>, i: nat)
    ensures forall e :: e in Bucket(v, order, i) ==> e in order
    decreases |order|
  {
    if order != [] {
      BucketMembers(v, order[..|order| - 1], i);
      assert order == order[..|order| - 1] + [order[|order| - 1]];
    }
  }

  /** Reorders every bucket by weight. */
  method ReorderBuckets(order: seq<Entry>, plain: seq<seq<Entry>>, weight: map<Key, int>)
    returns (buckets: seq<seq<Entry>>)
    requires plain == PlainBuckets(order)
    ensures |buckets| == |plain|
    ensures SlotCount(buckets) == SlotCount(plain)
    ensures forall i :: 0 <= i < |buckets| ==> Faithful(order, buckets[i], i)
  {
    buckets := [];
    for n := 0 to |plain|
      invariant |buckets| == n
      invariant SlotCount(buckets) == SlotCount(plain[..n])
      invariant forall i :: 0 <= i < n ==> Faithful(order, buckets[i], i)
    {
      var b := ReorderByWeight(plain[n], weight);
      forall w: nat | LookupIndex(Index14, w) == n ensures Hits(b, w) == Hits(order, w) {
        BucketKeepsHits(Index14, order, w);
      }
      BucketMembers(Index14, order, n);
      forall e | e in b ensures e in order { assert e in multiset(b); }
      assert |b| == |multiset(b)| == |plain[n]|;
      assert (buckets + [b])[..n] == buckets && plain[..n + 1][..n] == plain[..n];
      buckets := buckets + [b];
    }
    assert plain[..|plain|] == plain;
  }

  lemma LaysOutNothing(buckets: seq<seq<Entry>>)
    ensures LaysOut(Table([0], []), buckets, 0)
  {
  }

  lemma LaysOutOneMore(t: Table, buckets: seq<seq<Entry>>, n: nat)
    requires n < |buckets| && LaysOut(t, buckets, n)
    ensures var slots := t.slots + Raws(buckets[n]); LaysOut(Table(t.starts + [|slots|], slots), buckets, n + 1)
  {
    hide Raws;
    var slots := t.slots + Raws(buckets[n]);
    var starts := t.starts + [|slots|];
    forall i | 0 <= i <= n
      ensures starts[i] <= |slots|
      ensures starts[i] <= starts[i + 1] && slots[starts[i]..starts[i + 1]] == Raws(buckets[i])
    {
      if i < n {
        assert starts[i] == t.starts[i] && starts[i + 1] == t.starts[i + 1];
        assert slots[starts[i]..starts[i + 1]] == t.slots[starts[i]..starts[i + 1]];
      } else {
        assert starts[n] == |t.slots|;
      }
    }
  }

  /** Writes the buckets out as two flat arrays. */
  method Flatten(buckets: seq<seq<Entry>>) returns (t: Table)
    ensures LaysOut(t, buckets, |buckets|)
    ensures |t.slots| == SlotCount(buckets)
  {
    hide LaysOut;
    var starts: seq<nat>, slots: seq<nat> := [0], [];
    LaysOutNothing(buckets);
    for n := 0 to |buckets|
      invariant LaysOut(Table(starts, slots), buckets, n)
      invariant |slots| == SlotCount(buckets[..n])
    {
      LaysOutOneMore(Table(starts, slots), buckets, n);
      slots := slots + Raws(buckets[n]);
      starts := starts + [|slots|];
      assert buckets[..n + 1][..n] == buckets[..n];
    }
    assert buckets[..|buckets|] == buckets;
    t := Table(starts, slots);
  }

  /** A table is good for an instruction list when it covers every index and
      each bucket is faithful to the priority order. */
  ghost predicate Serves(t: Table, es: seq<Entry>) {
    exists buckets: seq<seq<Entry>> :: |buckets| == Index14.Count() && LaysOut(t, buckets, |buckets|) &&
      forall i :: 0 <= i < |buckets| ==> Faithful(PriorityOrder(es), buckets[i], i)
  }

  /** The generator: builds the table, or refuses when the slots do not fit a
      16-bit start index. The weights have no say in whether it succeeds. */
  method Generate(es: seq<Entry>, weight: map<Key, int>) returns (r: Result<Table>)
    requires AllValid(es) && Numbered(es)
    ensures r.Success? <==> SlotCount(PlainBuckets(PriorityOrder(es))) <= 0xFFFF
    ensures r.Success? ==> Serves(r.value, es)
    ensures r.Success? ==> forall i :: 0 <= i < |r.value.starts| ==> r.value.starts[i] < 0x1_0000
  {
    var order := PriorityOrder(es);
    PriorityOrderSorted(es);
    assert AllValid(order) by {
      forall i | 0 <= i < |order| ensures order[i].Valid() {
        assert order[i] in es;
      }
    }
    var plain := BuildBuckets(Index14, order);
    assert plain == PlainBuckets(order);
    var buckets := ReorderBuckets(order, plain, weight);
    var t := Flatten(buckets);
    if |t.slots| > 0xFFFF {
      return Failure("bucket slots do not fit a uint16_t");
    }
    return Success(t);
  }

  /** The bucket a word selects, and what a linear scan of it would find. */
  lemma WordBucket(t: Table, es: seq<Entry>, w: nat) returns (bucket: seq<Entry>)
    requires Numbered(es) && Serves(t, es)
    ensures var i := LookupIndex(Index14, w);
            && i + 1 < |t.starts|
            && t.starts[i] <= t.starts[i + 1] <= |t.slots|
            && t.slots[t.starts[i]..t.starts[i + 1]] == Raws(bucket)
    ensures forall e :: e in bucket ==> e in es
    ensures IsWinner(es, w, FirstMatch(bucket, w))
  {
    var buckets: seq<seq<Entry>> :| |buckets| == Index14.Count() && LaysOut(t, buckets, |buckets|) &&
      forall i :: 0 <= i < |buckets| ==> Faithful(PriorityOrder(es), buckets[i], i);
    IndexInRange(Index14, w);
    bucket := buckets[LookupIndex(Index14, w)];
    assert Faithful(PriorityOrder(es), bucket, LookupIndex(Index14, w));
    PriorityOrderSorted(es);
    FirstMatchIsFirstHit(bucket, w);
    FirstMatchIsFirstHit(PriorityOrder(es), w);
    ScanFindsWinner(es, w);
  }

  /** The decoder: scans the slots of the word's bucket and returns the first
      entry whose mask test the word passes. Whatever the weights were, that is
      the winner among all the entries that match the word. */
  method DecodeInstruction(t: Table, es: seq<Entry>, w: nat) returns (r: Option<nat>)
    requires Numbered(es) && Serves(t, es)
    ensures r.Some? ==> r.value < |es|
    ensures IsWinner(es, w, if r.Some? then Some(es[r.value]) else None)
  {
    ghost var bucket := WordBucket(t, es, w);
    var index := LookupIndex(Index14, w);
    ghost var start := t.starts[index];
    var end := t.starts[index + 1];
    var slot := t.starts[index];
    while slot != end
      invariant start <= slot <= end
      invariant forall j :: 0 <= j < slot - start ==> !bucket[j].Matches(w)
      decreases end - slot
    {
      ghost var j := slot - start;
      assert t.slots[start..end][j] == bucket[j].raw;
      assert bucket[j] in es;
      if es[t.slots[slot]].Matches(w) {
        FirstMatchAt(bucket, w, j);
        return Some(t.slots[slot]);
      }
      slot := slot + 1;
    }
    FirstMatchNone(bucket, w);
    return None;
  }

  /** End to end: generate a table with any weights, then decode any word. */
  method GenerateAndDecode(es: seq<Entry>, weight: map<Key, int>, w: nat) returns (r: Result<Option<nat>>)
    requires AllValid(es) && Numbered(es)
    ensures r.Success? <==> SlotCount(PlainBuckets(PriorityOrder(es))) <= 0xFFFF
    ensures r.Success? && r.value.None? ==> forall i :: 0 <= i < |es| ==> !FitsPattern(es[i].bits, w)
    ensures r.Success? && r.value.Some? ==>
      && r.value.value < |es|
      && FitsPattern(es[r.value.value].bits, w)
      && forall i :: 0 <= i < |es| && i != r.value.value && FitsPattern(es[i].bits, w) ==>
           Beats(es[r.value.value], es[i])
  {
    var t := Generate(es, weight);
    if t.Failure? {
      return Failure(t.error);
    }
    var d := DecodeInstruction(t.value, es, w);
    forall i | 0 <= i < |es| ensures es[i].Matches(w) <==> FitsPattern(es[i].bits, w) {
      MatchesIffFitsPattern(es[i], w);
    }
    return Success(d);
  }
}
