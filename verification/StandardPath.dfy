/** Lexical normalisation as the C++ standard defines it for generic pathnames
    ([fs.path.generic]), which the library's own is compared with: what it gives
    whatever order it removes things in, and exactly when the two agree. */
module StandardPath {
  import opened LexicalPath

  /** A generic pathname: whether it has a root directory, its filenames, and
      whether a separator follows the last of them. */
  datatype Pathname = Pathname(absolute: bool, parts: seq<string>, trailing: bool)

  function Read(path: string): Pathname {
    Pathname(IsAbsolute(path), Components(path), Components(path) != [] && EndsWithSeparator(path))
  }

  function Last(parts: seq<string>): string
    requires parts != []
  {
    parts[|parts| - 1]
  }

  function Without(parts: seq<string>, p: string): seq<string> {
    if parts == [] then []
    else Without(parts[..|parts| - 1], p) + if Last(parts) == p then [] else [Last(parts)]
  }

  /** Each dot goes with the separator after it: what stood before a final dot then
      ends with a separator. */
  function DropDots(n: Pathname): Pathname {
    var parts := Without(n.parts, ".");
    Pathname(n.absolute, parts, parts != [] && (n.trailing || Last(n.parts) == "."))
  }

  /** A filename that is not dot-dot, followed by a dot-dot. */
  predicate PairAt(parts: seq<string>, i: nat) {
    i + 1 < |parts| && parts[i] != ".." && parts[i + 1] == ".."
  }

  /** The pair goes with the separators around it but the one before. */
  function DropPair(n: Pathname, i: nat): Pathname
    requires PairAt(n.parts, i)
  {
    var parts := n.parts[..i] + n.parts[i + 2..];
    Pathname(n.absolute, parts, parts != [] && (n.trailing || i + 2 == |n.parts|))
  }

  /** Removing pairs in the given order is possible, and goes on until none is left. */
  ghost predicate Exhausts(n: Pathname, choices: seq<nat>)
    decreases |choices|
  {
    if choices == [] then forall i: nat :: !PairAt(n.parts, i)
    else PairAt(n.parts, choices[0]) && Exhausts(DropPair(n, choices[0]), choices[1..])
  }

  ghost function DropPairs(n: Pathname, choices: seq<nat>): Pathname
    requires Exhausts(n, choices)
    decreases |choices|
  {
    if choices == [] then n else DropPairs(DropPair(n, choices[0]), choices[1..])
  }

  /** Below a root directory the remaining dot-dots go too. */
  function DropUps(n: Pathname): Pathname {
    if !n.absolute then n
    else
      var parts := Without(n.parts, "..");
      Pathname(true, parts, parts != [] && n.trailing)
  }

  /** No separator after a final dot-dot, and a dot for nothing at all. */
  function Finish(n: Pathname): string {
    if !n.absolute && n.parts == [] then "."
    else Render(n.absolute, n.parts, n.trailing && n.parts != [] && Last(n.parts) != "..")
  }

  /** The standard's steps on a path, the pairs removed in the given order. */
  ghost function Standard(path: string, choices: seq<nat>): string
    requires Exhausts(DropDots(Read(path)), choices)
  {
    if path == "" then "" else Finish(DropUps(DropPairs(DropDots(Read(path)), choices)))
  }

  /** The pairs can always be exhausted. */
  lemma {:induction false} SomeOrder(n: Pathname) returns (choices: seq<nat>)
    ensures Exhausts(n, choices)
    decreases |n.parts|
  {
    if i: nat :| PairAt(n.parts, i) {
      var rest := SomeOrder(DropPair(n, i));
      choices := [i] + rest;
      assert choices[1..] == rest;
    } else {
      choices := [];
    }
  }

  // ----- the filenames that remain

  ghost predicate NoDots(parts: seq<string>) { forall i :: 0 <= i < |parts| ==> parts[i] != "." }

  lemma {:induction false} WithoutDots(parts: seq<string>)
    ensures NoDots(Without(parts, "."))
  {
    if parts != [] {
      WithoutDots(parts[..|parts| - 1]);
    }
  }

  lemma {:induction false} NormalPartsConcat(absolute: bool, done: seq<string>, a: seq<string>, b: seq<string>)
    ensures NormalParts(absolute, done, a + b) == NormalParts(absolute, NormalParts(absolute, done, a), b)
    decreases |a|
  {
    hide Step;
    if a == [] {
      assert a + b == b;
    } else {
      assert (a + b)[1..] == a[1..] + b;
      NormalPartsConcat(absolute, Step(absolute, done, a[0]), a[1..], b);
    }
  }

  lemma PairCancels(done: seq<string>, p: string)
    requires IsName(p)
    ensures NormalParts(false, done, [p, ".."]) == done
  {
    assert [p, ".."][1..] == [".."] && [".."][1..] == [];
    assert Step(false, done, p) == done + [p] && Step(false, done + [p], "..") == done;
    assert NormalParts(false, done + [p], [".."]) == done;
  }

  /** Removing a pair changes nothing the walk keeps. */
  lemma DropPairKeeps(n: Pathname, i: nat)
    requires PairAt(n.parts, i) && NoDots(n.parts)
    ensures NormalParts(false, [], DropPair(n, i).parts) == NormalParts(false, [], n.parts)
    ensures NoDots(DropPair(n, i).parts)
  {
    hide NormalParts;
    var a, pair, b := n.parts[..i], [n.parts[i], ".."], n.parts[i + 2..];
    assert n.parts == a + (pair + b);
    var x := NormalParts(false, [], a);
    NormalPartsConcat(false, [], a, pair + b);
    NormalPartsConcat(false, x, pair, b);
    NormalPartsConcat(false, [], a, b);
    PairCancels(x, n.parts[i]);
  }

  /** Without dots and pairs nothing is left to do. */
  lemma {:induction false} NoPairsNormal(parts: seq<string>, i: nat)
    requires NoDots(parts) && (forall k: nat :: !PairAt(parts, k)) && i < |parts| && parts[i] == ".."
    ensures forall j :: 0 <= j < i ==> parts[j] == ".."
    decreases i
  {
    if i > 0 {
      assert !PairAt(parts, i - 1);
      NoPairsNormal(parts, i - 1);
    }
  }

  /** Whatever the order, removing pairs leaves the filenames the walk keeps. */
  lemma {:induction false} DropPairsParts(n: Pathname, choices: seq<nat>)
    requires Exhausts(n, choices) && NoDots(n.parts)
    ensures var r := DropPairs(n, choices); r.parts == NormalParts(false, [], n.parts) && r.absolute == n.absolute
    decreases |choices|
  {
    hide NormalParts;
    if choices == [] {
      forall i | 0 <= i < |n.parts| && n.parts[i] == ".."
        ensures forall j :: 0 <= j < i ==> n.parts[j] == ".."
      {
        NoPairsNormal(n.parts, i);
      }
      NormalIsFixed(false, [], n.parts);
      assert [] + n.parts == n.parts;
    } else {
      DropPairKeeps(n, choices[0]);
      DropPairsParts(DropPair(n, choices[0]), choices[1..]);
    }
  }

  /** The kept parts without a leading dot. */
  function Undot(kept: seq<string>): seq<string> { if kept != [] && kept[0] == "." then kept[1..] else kept }

  lemma StepUndot(absolute: bool, kept: seq<string>, p: string)
    requires Normal(absolute, kept)
    ensures Undot(Step(absolute, kept, p)) == if p == "." then Undot(kept) else Step(absolute, Undot(kept), p)
  {
    var n := |kept|;
    if n > 0 && kept[0] == "." && p != "." {
      if n > 1 {
        assert kept[n - 1] == kept[1..][n - 2];
        assert kept[n - 1] != ".." && kept[n - 1] != ".";
        assert kept[..n - 1][1..] == kept[1..][..n - 2];
      }
      assert (kept + [p])[1..] == kept[1..] + [p];
    }
  }

  lemma {:induction false} UndottedParts(absolute: bool, c: seq<string>)
    ensures NormalParts(absolute, [], Without(c, ".")) == Undot(NormalParts(absolute, [], c))
  {
    if c != [] {
      hide NormalParts, Undot, Step, Normal;
      var init, p := c[..|c| - 1], Last(c);
      assert c == init + [p];
      UndottedParts(absolute, init);
      NormalPartsCorrect(absolute, [], [], init) by { NothingNormal(absolute); }
      NormalPartsSnoc(absolute, [], init, p);
      StepUndot(absolute, NormalParts(absolute, [], init), p);
      if p != "." {
        NormalPartsSnoc(absolute, [], Without(init, "."), p);
      } else {
        assert Without(init, ".") + [] == Without(init, ".");
      }
    } else {
      assert Without(c, ".") == [];
    }
  }

  lemma NothingNormal(absolute: bool)
    ensures Normal(absolute, [])
  {
  }

  lemma WithoutSnoc(parts: seq<string>, q: string, p: string)
    ensures Without(parts + [q], p) == Without(parts, p) + if q == p then [] else [q]
  {
    assert (parts + [q])[..|parts|] == parts;
  }

  lemma {:induction false} WithoutAll(parts: seq<string>, p: string)
    requires forall i :: 0 <= i < |parts| ==> parts[i] == p
    ensures Without(parts, p) == []
  {
    if parts != [] {
      WithoutAll(parts[..|parts| - 1], p);
    }
  }

  /** Below the root, dropping the dot-dots the relative walk has kept gives what the
      absolute walk keeps. */
  lemma StepGrounded(kept: seq<string>, p: string)
    requires Normal(false, kept) && NoDots(kept) && p != "."
    ensures Without(Step(false, kept, p), "..") == Step(true, Without(kept, ".."), p)
    ensures NoDots(Step(false, kept, p))
  {
    var n := |kept|;
    if n == 0 {
      WithoutSnoc([], p, "..");
      assert [] + [p] == [p];
    } else {
      var init := kept[..n - 1];
      assert kept == init + [Last(kept)];
      WithoutSnoc(init, Last(kept), "..");
      WithoutSnoc(kept, p, "..");
      if kept[n - 1] == ".." {
        WithoutAll(kept, "..");
      } else {
        var w := Without(init, "..");
        assert (w + [Last(kept)])[..|w|] == w;
      }
    }
  }

  lemma {:induction false} GroundedParts(d: seq<string>)
    requires NoDots(d)
    ensures Without(NormalParts(false, [], d), "..") == NormalParts(true, [], d)
    ensures NoDots(NormalParts(false, [], d))
  {
    if d != [] {
      hide NormalParts, Step, Normal, Without;
      var init, p := d[..|d| - 1], Last(d);
      assert d == init + [p];
      GroundedParts(init);
      NothingNormal(false);
      NormalPartsCorrect(false, [], [], init);
      NormalPartsSnoc(false, [], init, p);
      NormalPartsSnoc(true, [], init, p);
      StepGrounded(NormalParts(false, [], init), p);
    } else {
      assert Without([], "..") == [];
    }
  }

  // ----- the separator at the end

  /** Once the last filename of `first` is a name, it stays and so does what follows
      it; once it is a dot-dot, it stays or has left a separator. */
  ghost predicate EndsLike(first: Pathname, n: Pathname) {
    n.parts != [] ==>
      && first.parts != []
      && (Last(first.parts) != ".." ==> Last(n.parts) != ".." && n.trailing == first.trailing)
      && (Last(first.parts) == ".." ==> Last(n.parts) == ".." || n.trailing)
  }

  lemma DropPairEnds(first: Pathname, n: Pathname, i: nat)
    requires PairAt(n.parts, i) && EndsLike(first, n)
    ensures EndsLike(first, DropPair(n, i))
  {
    var parts := DropPair(n, i).parts;
    if parts != [] && i + 2 < |n.parts| {
      assert Last(parts) == Last(n.parts);
    }
  }

  lemma {:induction false} DropPairsEnds(first: Pathname, n: Pathname, choices: seq<nat>)
    requires Exhausts(n, choices) && EndsLike(first, n)
    ensures EndsLike(first, DropPairs(n, choices))
    decreases |choices|
  {
    if choices != [] {
      hide EndsLike;
      DropPairEnds(first, n, choices[0]);
      DropPairsEnds(first, DropPair(n, choices[0]), choices[1..]);
    }
  }

  // ----- the outcome

  /** Whether the standard's result ends with a separator: its last filename is a
      name, and the path ended with a separator, a dot or a dot-dot. */
  predicate StandardFinal(path: string, parts: seq<string>) {
    && parts != [] && IsName(Last(parts))
    && (EndsWithSeparator(path) || (Components(path) != [] && !IsName(Last(Components(path)))))
  }

  /** The standard's result does not depend on the order. */
  function StandardForm(path: string): string {
    var parts := Undot(NormalParts(IsAbsolute(path), [], Components(path)));
    if !IsAbsolute(path) && parts == [] then "."
    else Render(IsAbsolute(path), parts, StandardFinal(path, parts))
  }

  lemma LastUndotted(c: seq<string>)
    requires c != [] && Last(c) != "."
    ensures Without(c, ".") != [] && Last(Without(c, ".")) == Last(c)
  {
  }

  /** The filenames after all removals are those of the standard form. */
  lemma StandardParts(path: string, choices: seq<nat>)
    requires Exhausts(DropDots(Read(path)), choices)
    ensures var r := DropPairs(DropDots(Read(path)), choices);
            && DropUps(r).parts == Undot(NormalParts(IsAbsolute(path), [], Components(path)))
            && DropUps(r).absolute == r.absolute == IsAbsolute(path)
            && NoDots(r.parts) && Normal(false, r.parts)
            && (!r.absolute ==> DropUps(r) == r)
  {
    hide NormalParts, Undot, Normal, Components, Without, NoDots;
    var c := Components(path);
    var n := DropDots(Read(path));
    WithoutDots(c);
    DropPairsParts(n, choices);
    UndottedParts(IsAbsolute(path), c);
    GroundedParts(Without(c, "."));
    NothingNormal(false);
    NormalPartsCorrect(false, [], [], Without(c, "."));
  }

  /** Dropping the dot-dots below a root leaves the end alone, unless nothing else
      was there. */
  lemma DropUpsEnds(r: Pathname)
    requires Normal(false, r.parts) && DropUps(r).parts != []
    ensures r.parts != [] && DropUps(r).trailing == r.trailing
    ensures r.absolute ==> Last(r.parts) != ".."
  {
    if r.absolute && r.parts != [] && Last(r.parts) == ".." {
      WithoutAll(r.parts, "..");
    }
  }

  lemma StandardTrailing(path: string, choices: seq<nat>)
    requires Exhausts(DropDots(Read(path)), choices)
    ensures var n := DropUps(DropPairs(DropDots(Read(path)), choices));
            StandardFinal(path, n.parts) == (n.trailing && n.parts != [] && Last(n.parts) != "..")
  {
    hide NormalParts, Undot, Normal, Components, Without;
    var c := Components(path);
    var first := DropDots(Read(path));
    var r := DropPairs(first, choices);
    StandardParts(path, choices);
    DropPairsEnds(first, first, choices);
    if DropUps(r).parts != [] {
      DropUpsEnds(r);
      NoDotsLeft(r);
      FirstEnds(path);
    }
  }

  lemma NoDotsLeft(r: Pathname)
    requires NoDots(r.parts) && DropUps(r).parts != []
    ensures Last(DropUps(r).parts) != "."
  {
    if r.absolute {
      WithoutFrom(r.parts, "..", Last(Without(r.parts, "..")));
    }
  }

  lemma {:induction false} WithoutFrom(parts: seq<string>, p: string, q: string)
    requires q in Without(parts, p)
    ensures q in parts && q != p
  {
    if q != Last(parts) {
      WithoutFrom(parts[..|parts| - 1], p, q);
    } else if Last(parts) == p {
      WithoutFrom(parts[..|parts| - 1], p, q);
    }
  }

  /** How the path without its dots ends. */
  lemma FirstEnds(path: string)
    requires DropDots(Read(path)).parts != []
    ensures var c, n := Components(path), DropDots(Read(path));
            && c != []
            && (Last(n.parts) != ".." ==> n.trailing == (EndsWithSeparator(path) || !IsName(Last(c))))
            && (Last(n.parts) == ".." ==> !IsName(Last(c)))
  {
    hide Components;
    var c := Components(path);
    if c != [] && Last(c) != "." {
      LastUndotted(c);
    }
  }

  /** Whatever order the pairs are removed in, the standard's steps give the same. */
  lemma OrderIrrelevant(path: string, choices: seq<nat>)
    requires path != "" && Exhausts(DropDots(Read(path)), choices)
    ensures Standard(path, choices) == StandardForm(path)
  {
    hide NormalParts, Undot, Normal, Components, Render, StandardFinal, DropDots, DropPairs, DropUps, NoDots;
    StandardParts(path, choices);
    StandardTrailing(path, choices);
  }

  // ----- agreement

  /** What sets the two apart, read off the input: a name is kept last although the
      path ends in a dot or dot-dot without a separator after it; a relative path
      cancels out; or a relative path keeps a dot in front of a name. */
  ghost predicate Differs(path: string) {
    var c := Components(path);
    || (Height(c) > 0 && !EndsWithSeparator(path) && !IsName(Last(c)))
    || (!IsAbsolute(path) && Cancels(c))
    || (!IsAbsolute(path) && Matched(c) && DotAtGround(c) && Height(c) > 0)
  }

  ghost predicate AllParts(parts: seq<string>) { forall i :: 0 <= i < |parts| ==> IsPart(parts[i]) }

  /** Rendered paths are equal only if everything about them is. */
  lemma RenderInjective(absolute: bool, a: seq<string>, s: bool, b: seq<string>, t: bool)
    requires AllParts(a) && AllParts(b) && (s ==> a != []) && (t ==> b != [])
    ensures Render(absolute, a, s) == Render(absolute, b, t) <==> a == b && s == t
  {
    hide Render, Components;
    RenderReadsBack(absolute, a, s);
    RenderReadsBack(absolute, b, t);
  }

  /** The parts of the standard form, with the dot that stands for nothing. */
  function StandardKept(absolute: bool, kept: seq<string>): seq<string> {
    if !absolute && Undot(kept) == [] then ["."] else Undot(kept)
  }

  /** Both keep the same parts unless the parts cancel out or a dot stands in front
      of a name. */
  lemma SameParts(absolute: bool, c: seq<string>, kept: seq<string>)
    requires Keeps(absolute, c, kept)
    ensures kept == StandardKept(absolute, kept) <==>
            absolute || !(Cancels(c) || (Matched(c) && DotAtGround(c) && Height(c) > 0))
    ensures kept != [] && IsName(Last(kept)) <==> Height(c) > 0
  {
    hide Matched, DotAtGround, Height, Cancels;
    CancelsIff(c);
    if kept != [] && kept[0] == "." {
      assert |kept[1..]| == |kept| - 1;
    }
  }

  lemma HeightOfNothing()
    ensures Height([]) == 0
  {
  }

  lemma StandardFormIs(path: string)
    ensures var kept := NormalParts(IsAbsolute(path), [], Components(path));
            StandardForm(path) == Render(IsAbsolute(path), StandardKept(IsAbsolute(path), kept),
                                         StandardFinal(path, StandardKept(IsAbsolute(path), kept)))
  {
    hide NormalParts, Components;
    assert "" + "." + "" == ".";
  }

  lemma KeptAreParts(path: string)
    ensures var kept := NormalParts(IsAbsolute(path), [], Components(path));
            AllParts(kept) && AllParts(StandardKept(IsAbsolute(path), kept))
  {
    hide NormalParts, Components;
    ComponentsAreParts(path);
    NormalPartsAreParts(IsAbsolute(path), [], Components(path));
  }

  /** Exactly when the library's normal form is the standard's, for every path and
      every order of the standard's removals. */
  lemma AgreesIffNotDiffers(path: string, choices: seq<nat>)
    requires Exhausts(DropDots(Read(path)), choices)
    ensures Normalised(path) == Standard(path, choices) <==> path == "" || !Differs(path)
  {
    if path != "" {
      hide NormalParts, Components, Render, Height, Matched, DotAtGround, Cancels, Keeps;
      hide StandardKept, StandardForm, Standard, AllParts;
      var absolute, c := IsAbsolute(path), Components(path);
      var kept := NormalParts(absolute, [], c);
      OrderIrrelevant(path, choices);
      StandardFormIs(path);
      KeptAreParts(path);
      NormalPartsKeeps(absolute, c);
      SameParts(absolute, c, kept);
      HeightOfNothing();
      RenderInjective(absolute, kept, KeepsFinalSeparator(path, kept),
                      StandardKept(absolute, kept), StandardFinal(path, StandardKept(absolute, kept)));
    }
  }
}
