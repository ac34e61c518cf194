/** The scan order of the decode table before any indexing: most fixed bits
    first, ties in file order, with the SIMD modified-immediate entries hoisted
    ahead of everything else. */
module DecodePriority {
  import opened Options
  import opened Bits
  import opened DecodeEntries

  const COMES_FIRST: set<string> := {
    "MOVI, MVNI, ORR, BIC (vector, immediate)",
    "FMOV (vector, immediate)",
    "Unallocated SIMD modified immediate"
  }

  predicate Hoisted(e: Entry) {
    e.desc in COMES_FIRST
  }

  /** Entries are numbered by their position in the instruction list. */
  ghost predicate Numbered(es: seq<Entry>) {
    forall i :: 0 <= i < |es| ==> es[i].raw == i
  }

  /** The stable descending sort by number of fixed bits: each entry goes in
      front of the first later one that is no more specific. */
  function SortBySpecificity(es: seq<Entry>): seq<Entry> {
    if es == [] then [] else Insert(es[0], SortBySpecificity(es[1..]))
  }

  function Insert(e: Entry, es: seq<Entry>): seq<Entry> {
    if es == [] || PopCount(es[0].mask) <= PopCount(e.mask) then [e] + es
    else [es[0]] + Insert(e, es[1..])
  }

  function Select(es: seq<Entry>, hoisted: bool): seq<Entry> {
    if es == [] then []
    else (if Hoisted(es[0]) == hoisted then [es[0]] else []) + Select(es[1..], hoisted)
  }

  function PriorityOrder(es: seq<Entry>): seq<Entry> {
    var bySpecificity := SortBySpecificity(es);
    Select(bySpecificity, true) + Select(bySpecificity, false)
  }

  /** Who wins when a word matches both: a hoisted entry over one that is not,
      then more fixed bits, then the earlier line of the instruction list. */
  predicate Beats(a: Entry, b: Entry) {
    if Hoisted(a) != Hoisted(b) then Hoisted(a) else BeatsInClass(a, b)
  }

  predicate BeatsInClass(a: Entry, b: Entry) {
    if PopCount(a.mask) != PopCount(b.mask) then PopCount(a.mask) > PopCount(b.mask) else a.raw < b.raw
  }

  /** What a word decodes to, without reference to any list order or index. */
  ghost predicate IsWinner(es: seq<Entry>, w: nat, r: Option<Entry>) {
    match r
    case None => forall e :: e in es ==> !e.Matches(w)
    case Some(x) => x in es && x.Matches(w) && forall e :: e in es && e.Matches(w) && e != x ==> Beats(x, e)
  }

  ghost predicate SortedInClass(es: seq<Entry>) {
    forall i, j :: 0 <= i < j < |es| ==> BeatsInClass(es[i], es[j])
  }

  lemma {:induction false} InsertSorted(e: Entry, es: seq<Entry>)
    requires SortedInClass(es) && forall x :: x in es ==> e.raw < x.raw
    ensures SortedInClass(Insert(e, es))
    ensures multiset(Insert(e, es)) == multiset{e} + multiset(es)
    ensures forall x :: x in Insert(e, es) <==> x == e || x in es
  {
    hide PopCount;
    if es != [] && PopCount(es[0].mask) > PopCount(e.mask) {
      InsertSorted(e, es[1..]);
      var r := Insert(e, es[1..]);
      assert es == [es[0]] + es[1..];
      forall j | 0 <= j < |r| ensures BeatsInClass(es[0], r[j]) {
        assert r[j] in r;
        assert r[j] == e || r[j] in es[1..];
      }
    }
  }

  /** Sorting keeps the entries and puts the more specific, then earlier, first. */
  lemma {:induction false} SortCorrect(es: seq<Entry>, base: nat)
    requires forall i :: 0 <= i < |es| ==> es[i].raw == base + i
    ensures SortedInClass(SortBySpecificity(es))
    ensures multiset(SortBySpecificity(es)) == multiset(es)
    ensures forall x :: x in SortBySpecificity(es) <==> x in es
  {
    if es != [] {
      assert es == [es[0]] + es[1..];
      SortCorrect(es[1..], base + 1);
      forall x | x in SortBySpecificity(es[1..]) ensures es[0].raw < x.raw {
        var i :| 0 <= i < |es[1..]| && es[1..][i] == x;
      }
      InsertSorted(es[0], SortBySpecificity(es[1..]));
    }
  }

  lemma {:induction false} SelectCorrect(es: seq<Entry>, hoisted: bool)
    requires SortedInClass(es)
    ensures SortedInClass(Select(es, hoisted))
    ensures forall x :: x in Select(es, hoisted) <==> x in es && Hoisted(x) == hoisted
  {
    if es != [] {
      assert es == [es[0]] + es[1..];
      SelectCorrect(es[1..], hoisted);
      var rest := Select(es[1..], hoisted);
      forall j | 0 <= j < |rest| ensures BeatsInClass(es[0], rest[j]) {
        assert rest[j] in es[1..];
        var k :| 0 <= k < |es[1..]| && es[1..][k] == rest[j];
        assert es[k + 1] == rest[j];
      }
    }
  }

  lemma {:induction false} SelectSplits(es: seq<Entry>)
    ensures multiset(Select(es, true)) + multiset(Select(es, false)) == multiset(es)
  {
    if es != [] {
      assert es == [es[0]] + es[1..];
      SelectSplits(es[1..]);
    }
  }

  /** The priority order is a permutation of the list in which every entry
      beats all those after it. */
  lemma PriorityOrderSorted(es: seq<Entry>)
    requires Numbered(es)
    ensures multiset(PriorityOrder(es)) == multiset(es)
    ensures forall x :: x in PriorityOrder(es) <==> x in es
    ensures forall i, j :: 0 <= i < j < |PriorityOrder(es)| ==> Beats(PriorityOrder(es)[i], PriorityOrder(es)[j])
  {
    SortCorrect(es, 0);
    var s := SortBySpecificity(es);
    SelectCorrect(s, true);
    SelectCorrect(s, false);
    SelectSplits(s);
    var first, rest := Select(s, true), Select(s, false);
    forall i, j | 0 <= i < j < |first + rest| ensures Beats((first + rest)[i], (first + rest)[j]) {
      assert i < |first| ==> first[i] in first;
      assert i >= |first| ==> rest[i - |first|] in rest;
      assert j < |first| ==> first[j] in first;
      assert j >= |first| ==> rest[j - |first|] in rest;
    }
  }

  /** A linear scan of the priority order finds the winner. */
  lemma ScanFindsWinner(es: seq<Entry>, w: nat)
    requires Numbered(es)
    ensures IsWinner(es, w, FirstMatch(PriorityOrder(es), w))
  {
    hide Beats, PriorityOrder, FirstMatch, Entry.Matches;
    PriorityOrderSorted(es);
    var p := PriorityOrder(es);
    if i: nat :| i < |p| && p[i].Matches(w) && forall j :: 0 <= j < i ==> !p[j].Matches(w) {
      FirstMatchAt(p, w, i);
      assert p[i] in p;
      forall e | e in es && e.Matches(w) && e != p[i] ensures Beats(p[i], e) {
        var j :| 0 <= j < |p| && p[j] == e;
      }
    } else {
      forall j: nat | j < |p| ensures !p[j].Matches(w) { NoneBefore(p, w, j); }
      FirstMatchNone(p, w);
    }
  }

  /** With no first match there is no match at all. */
  lemma {:induction false} NoneBefore(p: seq<Entry>, w: nat, n: nat)
    requires n < |p|
    requires !exists i: nat :: i < |p| && p[i].Matches(w) && forall j :: 0 <= j < i ==> !p[j].Matches(w)
    ensures !p[n].Matches(w)
  {
    forall j: nat | j < n ensures !p[j].Matches(w) { NoneBefore(p, w, j); }
  }

  /** There is only one winner. */
  lemma WinnerUnique(es: seq<Entry>, w: nat, r1: Option<Entry>, r2: Option<Entry>)
    requires IsWinner(es, w, r1) && IsWinner(es, w, r2)
    ensures r1 == r2
  {
  }
}
