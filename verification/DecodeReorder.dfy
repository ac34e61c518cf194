/** Frequency ordering of a bucket: heavier entries move forward, but only past
    entries no word can match together with them. */
module DecodeReorder {
  import opened DecodeEntries

  function WeightOf(weight: map<Key, int>, e: Entry): int {
    if e.Key() in weight then weight[e.Key()] else 0
  }

  /** The pass may exchange the neighbours x, y. */
  predicate Swappable(weight: map<Key, int>, x: Entry, y: Entry) {
    WeightOf(weight, y) > WeightOf(weight, x) && Disjoint(x, y)
  }

  function Exchange(b: seq<Entry>, i: nat): (r: seq<Entry>)
    requires i + 1 < |b|
    ensures |r| == |b|
  {
    b[i := b[i + 1]][i + 1 := b[i]]
  }

  // ----- the measure: pairs whose heavier entry comes later

  function HeavierThan(weight: map<Key, int>, x: Entry, b: seq<Entry>): nat {
    if b == [] then 0
    else (if WeightOf(weight, b[0]) > WeightOf(weight, x) then 1 else 0) + HeavierThan(weight, x, b[1..])
  }

  function Inversions(weight: map<Key, int>, b: seq<Entry>): nat {
    if b == [] then 0 else HeavierThan(weight, b[0], b[1..]) + Inversions(weight, b[1..])
  }

  lemma {:induction false} HeavierThanExchange(weight: map<Key, int>, x: Entry, b: seq<Entry>, i: nat)
    requires i + 1 < |b|
    ensures HeavierThan(weight, x, Exchange(b, i)) == HeavierThan(weight, x, b)
  {
    if i == 0 {
      assert Exchange(b, 0)[1..][1..] == b[1..][1..];
      assert Exchange(b, 0)[1..][0] == b[0] && b[1..][0] == b[1];
    } else {
      assert Exchange(b, i)[1..] == Exchange(b[1..], i - 1);
      HeavierThanExchange(weight, x, b[1..], i - 1);
    }
  }

  /** Exchanging neighbours in the wrong weight order removes exactly one
      inversion. */
  lemma {:induction false} ExchangeRemovesOneInversion(weight: map<Key, int>, b: seq<Entry>, i: nat)
    requires i + 1 < |b| && WeightOf(weight, b[i + 1]) > WeightOf(weight, b[i])
    ensures Inversions(weight, Exchange(b, i)) == Inversions(weight, b) - 1
  {
    var c := Exchange(b, i);
    if i == 0 {
      var x, y, rest := b[0], b[1], b[2..];
      assert b[1..][1..] == rest && c[1..][1..] == rest;
      assert b[1..][0] == y && c[0] == y && c[1..][0] == x;
    } else {
      assert c[1..] == Exchange(b[1..], i - 1) && c[0] == b[0];
      ExchangeRemovesOneInversion(weight, b[1..], i - 1);
      HeavierThanExchange(weight, b[0], b[1..], i - 1);
    }
  }

  /** Exchanging disjoint neighbours leaves the sequence of matches of every
      word as it was: at most one of the two is in it. */
  lemma ExchangeKeepsHits(b: seq<Entry>, i: nat, w: nat)
    requires i + 1 < |b| && Disjoint(b[i], b[i + 1])
    ensures Hits(Exchange(b, i), w) == Hits(b, w)
  {
    var pre, x, y, post := b[..i], b[i], b[i + 1], b[i + 2..];
    assert b == pre + ([x] + [y] + post);
    assert Exchange(b, i) == pre + ([y] + [x] + post);
    DisjointSound(x, y, w);
    HitsConcat(pre, [x] + [y] + post, w);
    HitsConcat(pre, [y] + [x] + post, w);
    HitsConcat([x] + [y], post, w);
    HitsConcat([y] + [x], post, w);
    HitsConcat([x], [y], w);
    HitsConcat([y], [x], w);
  }

  lemma ExchangeIsPermutation(b: seq<Entry>, i: nat)
    requires i + 1 < |b|
    ensures multiset(Exchange(b, i)) == multiset(b)
  {
    var pre, x, y, post := b[..i], b[i], b[i + 1], b[i + 2..];
    assert b == pre + [x] + [y] + post;
    assert Exchange(b, i) == pre + [y] + [x] + post;
  }

  /** Bubbles heavier entries forward until no exchange is left. The result is a
      rearrangement in which every word meets the same matching entries in the
      same order, and no neighbours remain that the pass would exchange. */
  method ReorderByWeight(bucket: seq<Entry>, weight: map<Key, int>) returns (b: seq<Entry>)
    ensures multiset(b) == multiset(bucket)
    ensures forall w: nat :: Hits(b, w) == Hits(bucket, w)
    ensures forall i :: 0 <= i < |b| - 1 ==> !Swappable(weight, b[i], b[i + 1])
    ensures Inversions(weight, b) <= Inversions(weight, bucket)
  {
    b := bucket;
    var swapped := true;
    while swapped
      invariant multiset(b) == multiset(bucket)
      invariant forall w: nat :: Hits(b, w) == Hits(bucket, w)
      invariant !swapped ==> forall i :: 0 <= i < |b| - 1 ==> !Swappable(weight, b[i], b[i + 1])
      invariant Inversions(weight, b) <= Inversions(weight, bucket)
      decreases Inversions(weight, b), swapped
    {
      swapped := false;
      ghost var start := Inversions(weight, b);
      var i := 0;
      while i < |b| - 1
        invariant 0 <= i && (i <= |b| - 1 || i == 0)
        invariant multiset(b) == multiset(bucket)
        invariant forall w: nat :: Hits(b, w) == Hits(bucket, w)
        invariant Inversions(weight, b) <= start
        invariant swapped ==> Inversions(weight, b) < start
        invariant !swapped ==> forall j :: 0 <= j < i && j < |b| - 1 ==> !Swappable(weight, b[j], b[j + 1])
      {
        var x, y := b[i], b[i + 1];
        if WeightOf(weight, y) > WeightOf(weight, x) && Disjoint(x, y) {
          ExchangeRemovesOneInversion(weight, b, i);
          ExchangeIsPermutation(b, i);
          forall w: nat ensures Hits(Exchange(b, i), w) == Hits(bucket, w) { ExchangeKeepsHits(b, i, w); }
          b := Exchange(b, i);
          swapped := true;
        }
        i := i + 1;
      }
    }
  }

  /** Any two entries of a bucket that some word matches together keep their
      relative order under a rearrangement that keeps every word's matches. */
  lemma OverlappingPairsKeepOrder(b: seq<Entry>, c: seq<Entry>, x: Entry, y: Entry, w: nat)
    requires Hits(c, w) == Hits(b, w)
    requires x != y && x.Matches(w) && y.Matches(w)
    ensures ComesBefore(c, x, y) <==> ComesBefore(b, x, y)
  {
    HitsKeepOrder(b, x, y, w);
    HitsKeepOrder(c, x, y, w);
  }

  ghost predicate ComesBefore(b: seq<Entry>, x: Entry, y: Entry) {
    exists i, j :: 0 <= i < j < |b| && b[i] == x && b[j] == y
  }

  lemma {:induction false} HitsKeepOrder(b: seq<Entry>, x: Entry, y: Entry, w: nat)
    requires x.Matches(w) && y.Matches(w)
    ensures ComesBefore(Hits(b, w), x, y) <==> ComesBefore(b, x, y)
  {
    if b != [] {
      HitsKeepOrder(b[1..], x, y, w);
      HitsMembers(b[1..], y, w);
      ConsComesBefore(b[0], b[1..], x, y);
      assert b == [b[0]] + b[1..];
      if b[0].Matches(w) {
        ConsComesBefore(b[0], Hits(b[1..], w), x, y);
      } else {
        assert Hits(b, w) == Hits(b[1..], w);
      }
    }
  }

  lemma ConsComesBefore(h: Entry, t: seq<Entry>, x: Entry, y: Entry)
    ensures ComesBefore([h] + t, x, y) <==> (h == x && y in t) || ComesBefore(t, x, y)
  {
    var s := [h] + t;
    if ComesBefore(t, x, y) {
      var i, j :| 0 <= i < j < |t| && t[i] == x && t[j] == y;
      assert s[i + 1] == x && s[j + 1] == y;
    }
    if h == x && y in t {
      var j :| 0 <= j < |t| && t[j] == y;
      assert s[0] == x && s[j + 1] == y;
    }
    if ComesBefore(s, x, y) {
      var i, j :| 0 <= i < j < |s| && s[i] == x && s[j] == y;
      assert t[j - 1] == y;
      if i > 0 { assert t[i - 1] == x; }
    }
  }

  lemma {:induction false} HitsMembers(b: seq<Entry>, y: Entry, w: nat)
    requires y.Matches(w)
    ensures y in Hits(b, w) <==> y in b
  {
    if b != [] {
      assert b == [b[0]] + b[1..];
      HitsMembers(b[1..], y, w);
    }
  }
}
