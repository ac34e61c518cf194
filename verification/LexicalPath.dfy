/** Lexical normalisation of paths: separators collapsed, "." and ".." parts
    resolved where that needs no file system, the meaning kept. */
module LexicalPath {

  // ----- splitting

  /** The position of the next separator from `from` on, or the length. */
  function NextSeparator(s: string, from: nat): (r: nat)
    requires from <= |s|
    ensures from <= r <= |s|
    ensures forall j :: from <= j < r ==> s[j] != '/'
    ensures r < |s| ==> s[r] == '/'
    decreases |s| - from
  {
    if from == |s| || s[from] == '/' then from else NextSeparator(s, from + 1)
  }

  /** The parts between separators, empty ones left out. */
  function Components(s: string): seq<string>
    decreases |s|
  {
    if s == "" then []
    else if s[0] == '/' then Components(s[1..])
    else
      var e := NextSeparator(s, 0);
      [s[..e]] + Components(s[e..])
  }

  function CountSeparators(s: string): nat {
    if s == "" then 0 else CountSeparators(s[..|s| - 1]) + if s[|s| - 1] == '/' then 1 else 0
  }

  ghost predicate IsPart(p: string) { p != "" && '/' !in p }

  lemma {:induction false} ComponentsAreParts(s: string)
    ensures forall i :: 0 <= i < |Components(s)| ==> IsPart(Components(s)[i])
    decreases |s|
  {
    if s != "" {
      if s[0] == '/' {
        ComponentsAreParts(s[1..]);
      } else {
        var e := NextSeparator(s, 0);
        ComponentsAreParts(s[e..]);
        forall j | 0 <= j < |s[..e]| ensures s[..e][j] != '/' {}
      }
    }
  }

  /** Splits a path. The loop ends exactly at the end of the path, and at most
      one more part is made than there are separators. */
  method Split(path: string) returns (parts: seq<string>)
    requires path != ""
    ensures parts == Components(path)
    ensures |parts| <= CountSeparators(path) + 1
  {
    hide Components, CountSeparators, NextSeparator;
    parts := [];
    var current := 0;
    assert path[0..] == path;
    while true
      invariant 0 <= current < |path|
      invariant parts + Components(path[current..]) == Components(path)
      invariant |parts| <= CountSeparators(path[..current]) + 1
      invariant path[current] != '/' ==> |parts| <= CountSeparators(path[..current])
      decreases |path| - current
    {
      var found := NextSeparator(path, current);
      ComponentsAt(path, current);
      CountSlice(path, current, found);
      var size := found - current;
      if size != 0 {
        parts := parts + [path[current..found]];
      } else {
        found := found + 1;
        CountStep(path, current);
      }
      current := found;
      if current == |path| {
        break;
      }
    }
    NoComponents();
    assert path[current..] == "" && path[..current] == path && parts + [] == parts;
  }

  lemma NoComponents()
    ensures Components("") == []
  {
  }

  /** The components from a position on: past a separator, or a part and then
      the rest from the separator that ends it. */
  lemma ComponentsAt(s: string, from: nat)
    requires from < |s|
    ensures var e := NextSeparator(s, from);
            if e == from then Components(s[from..]) == Components(s[from + 1..])
            else Components(s[from..]) == [s[from..e]] + Components(s[e..])
  {
    var t, e := s[from..], NextSeparator(s, from);
    assert t[0] == s[from] && t[1..] == s[from + 1..];
    SeparatorFromHere(s, from, 0);
    assert t[..e - from] == s[from..e] && t[e - from..] == s[e..];
  }

  lemma CountStep(s: string, i: nat)
    requires i < |s| && s[i] == '/'
    ensures CountSeparators(s[..i + 1]) == CountSeparators(s[..i]) + 1
  {
    assert s[..i + 1][..i] == s[..i];
  }

  /** Searching in a suffix finds the same separator. */
  lemma {:induction false} SeparatorFromHere(s: string, from: nat, k: nat)
    requires from + k <= |s|
    ensures NextSeparator(s[from..], k) == NextSeparator(s, from + k) - from
    decreases |s| - from - k
  {
    if from + k < |s| && s[from + k] != '/' { SeparatorFromHere(s, from, k + 1); }
  }

  /** A stretch without separators adds none to the count. */
  lemma {:induction false} CountSlice(s: string, from: nat, end: nat)
    requires from <= end <= |s| && forall j :: from <= j < end ==> s[j] != '/'
    ensures CountSeparators(s[..end]) == CountSeparators(s[..from])
    decreases end
  {
    if from < end {
      assert s[..end][..end - 1] == s[..end - 1];
      CountSlice(s, from, end - 1);
    }
  }

  // ----- normalising the parts

  /** One part, given the parts kept so far. */
  function Step(absolute: bool, done: seq<string>, p: string): seq<string> {
    var n := |done|;
    if p == "." && (n > 0 || absolute) then done
    else if p == ".." && n > 0 && done[n - 1] == "." then done[..n - 1] + [p]
    else if p == ".." && n > 0 && done[n - 1] != ".." then done[..n - 1]
    else if p == ".." && n == 0 && absolute then done
    else done + [p]
  }

  function NormalParts(absolute: bool, done: seq<string>, rest: seq<string>): seq<string>
    decreases |rest|
  {
    if rest == [] then done else NormalParts(absolute, Step(absolute, done, rest[0]), rest[1..])
  }

  /** Walks the list of parts, erasing in place. The running distance is always
      the position of the iterator. */
  method NormaliseParts(absolute: bool, parts0: seq<string>) returns (parts: seq<string>)
    ensures parts == NormalParts(absolute, [], parts0)
  {
    parts := parts0;
    var iter, distance := 0, 0;
    assert parts[..0] == [] && parts[0..] == parts;
    while iter != |parts|
      invariant 0 <= iter <= |parts| && distance == iter
      invariant NormalParts(absolute, parts[..iter], parts[iter..]) == NormalParts(absolute, [], parts0)
      decreases |parts| - iter
    {
      ghost var done, rest := parts[..iter], parts[iter..];
      var part := parts[iter];
      if part == "." {
        if distance > 0 || absolute {
          parts := parts[..iter] + parts[iter + 1..];
          assert parts[..iter] == done && parts[iter..] == rest[1..];
          continue;
        }
      }
      if part == ".." {
        if distance > 0 {
          var previous := iter - 1;
          if parts[previous] == "." {
            distance := distance - 1;
            parts := parts[..previous] + parts[iter..];
            iter := iter - 1;
          } else if parts[previous] != ".." {
            distance := distance - 1;
            parts := parts[..previous] + parts[iter + 1..];
            iter := iter - 1;
            assert parts[..iter] == done[..|done| - 1] && parts[iter..] == rest[1..];
            continue;
          }
        } else if absolute {
          parts := parts[..iter] + parts[iter + 1..];
          assert parts[..iter] == done && parts[iter..] == rest[1..];
          continue;
        }
      }
      distance := distance + 1;
      iter := iter + 1;
      assert parts[..iter] == Step(absolute, done, part) && parts[iter..] == rest[1..];
    }
    assert parts[..iter] == parts && parts[iter..] == [];
  }

  // ----- what a path means

  /** Following one part from a directory, given as the names from the root. */
  function Enter(dir: seq<string>, p: string): seq<string> {
    if p == "." then dir
    else if p == ".." then (if dir == [] then dir else dir[..|dir| - 1])
    else dir + [p]
  }

  function Resolve(dir: seq<string>, parts: seq<string>): seq<string>
    decreases |parts|
  {
    if parts == [] then dir else Enter(Resolve(dir, parts[..|parts| - 1]), parts[|parts| - 1])
  }

  predicate IsName(p: string) { p != "." && p != ".." }

  /** The shapes that remain: names only; or, for a relative path, a leading "."
      or any number of leading ".." followed by names. */
  ghost predicate Normal(absolute: bool, parts: seq<string>) {
    && (forall i :: 0 <= i < |parts| && (absolute || i > 0) ==> parts[i] != ".")
    && (forall i :: 0 <= i < |parts| && parts[i] == ".." ==> !absolute && forall j :: 0 <= j < i ==> parts[j] == "..")
  }

  lemma StepNormal(absolute: bool, done: seq<string>, p: string)
    requires Normal(absolute, done)
    ensures Normal(absolute, Step(absolute, done, p))
  {
    var n := |done|;
    if p == ".." && n > 0 && done[n - 1] == "." {
      assert n == 1;
    } else if p == ".." && n > 0 && done[n - 1] == ".." {
    }
  }

  /** A step keeps the meaning: entering the new part from where the kept parts
      lead is where the new kept parts lead. */
  lemma StepKeepsMeaning(absolute: bool, dir: seq<string>, done: seq<string>, p: string)
    requires Normal(absolute, done) && (absolute ==> dir == [])
    ensures Resolve(dir, Step(absolute, done, p)) == Enter(Resolve(dir, done), p)
  {
    var n := |done|;
    if p == "." && (n > 0 || absolute) {
    } else if p == ".." && n > 0 && done[n - 1] == "." {
      assert n == 1 && done[..0] == [] && done[..0] + [p] == [p] && [p][..0] == [];
    } else if p == ".." && n > 0 && done[n - 1] != ".." {
      assert IsName(done[n - 1]);
    } else if p == ".." && n == 0 && absolute {
    } else {
      assert (done + [p])[..n] == done;
    }
  }

  lemma {:induction false} ResolveConcat(dir: seq<string>, a: seq<string>, b: seq<string>)
    ensures Resolve(dir, a + b) == Resolve(Resolve(dir, a), b)
    decreases |b|
  {
    if b == [] {
      assert a + b == a;
    } else {
      assert (a + b)[..|a + b| - 1] == a + b[..|b| - 1];
      ResolveConcat(dir, a, b[..|b| - 1]);
    }
  }

  lemma {:induction false} NormalPartsCorrect(absolute: bool, dir: seq<string>, done: seq<string>, rest: seq<string>)
    requires Normal(absolute, done) && (absolute ==> dir == [])
    ensures Normal(absolute, NormalParts(absolute, done, rest))
    ensures Resolve(dir, NormalParts(absolute, done, rest)) == Resolve(Resolve(dir, done), rest)
    decreases |rest|
  {
    if rest != [] {
      hide Normal, Step, Enter;
      StepNormal(absolute, done, rest[0]);
      StepKeepsMeaning(absolute, dir, done, rest[0]);
      NormalPartsCorrect(absolute, dir, Step(absolute, done, rest[0]), rest[1..]);
      assert rest == [rest[0]] + rest[1..];
      ResolveConcat(Resolve(dir, done), [rest[0]], rest[1..]);
      ResolveOne(Resolve(dir, done), rest[0]);
    }
  }

  lemma ResolveOne(dir: seq<string>, p: string)
    ensures Resolve(dir, [p]) == Enter(dir, p)
  {
    assert [p][..0] == [];
  }

  /** Normal parts are left as they are. */
  lemma {:induction false} NormalIsFixed(absolute: bool, done: seq<string>, rest: seq<string>)
    requires Normal(absolute, done + rest)
    ensures NormalParts(absolute, done, rest) == done + rest
    decreases |rest|
  {
    if rest == [] {
      assert done + rest == done;
    } else {
      var all, n := done + rest, |done|;
      assert all[n] == rest[0];
      assert n > 0 ==> all[n - 1] == done[n - 1];
      assert Step(absolute, done, rest[0]) == done + [rest[0]];
      assert (done + [rest[0]]) + rest[1..] == all;
      NormalIsFixed(absolute, done + [rest[0]], rest[1..]);
    }
  }

  // ----- the whole path

  function Join(parts: seq<string>): string {
    if parts == [] then "" else if |parts| == 1 then parts[0] else parts[0] + "/" + Join(parts[1..])
  }

  predicate IsAbsolute(path: string) { path != "" && path[0] == '/' }

  predicate EndsWithSeparator(path: string) { path != "" && path[|path| - 1] == '/' }

  /** A separator is put back at the end unless the last part is "." or "..". */
  predicate KeepsFinalSeparator(path: string, parts: seq<string>) {
    EndsWithSeparator(path) && parts != [] && IsName(parts[|parts| - 1])
  }

  function Render(absolute: bool, parts: seq<string>, trailing: bool): string {
    (if absolute then "/" else "") + Join(parts) + (if trailing then "/" else "")
  }

  function Normalised(path: string): string {
    if path == "" then ""
    else
      var parts := NormalParts(IsAbsolute(path), [], Components(path));
      Render(IsAbsolute(path), parts, KeepsFinalSeparator(path, parts))
  }

  /** The directory a path leads to from a starting directory. */
  function Meaning(dir: seq<string>, path: string): seq<string> {
    Resolve(if IsAbsolute(path) then [] else dir, Components(path))
  }

  /** Normalises a path. */
  method LexicallyNormal(path: string) returns (r: string)
    ensures r == Normalised(path)
  {
    hide Components, CountSeparators, NormalParts, Join;
    if |path| == 0 {
      return "";
    }
    var absolute := path[0] == '/';
    var endsWithSeparator := path[|path| - 1] == '/';
    var parts := Split(path);
    parts := NormaliseParts(absolute, parts);
    var final := endsWithSeparator && parts != [] && parts[|parts| - 1] != "." && parts[|parts| - 1] != "..";
    r := (if absolute then "/" else "") + Join(parts) + (if final then "/" else "");
  }

  // ----- reading a rendered path back

  /** A part, then a separator or the end. */
  lemma ComponentsCons(p: string, t: string)
    requires IsPart(p) && (t == "" || t[0] == '/')
    ensures Components(p + t) == [p] + Components(t)
  {
    var s := p + t;
    assert s[0] == p[0] && p[0] in p;
    SeparatorAt(s, 0, |p|) by {
      forall j | 0 <= j < |p| ensures s[j] != '/' { assert s[j] == p[j] && p[j] in p; }
    }
    assert s[..|p|] == p && s[|p|..] == t;
  }

  lemma {:induction false} SeparatorAt(s: string, from: nat, e: nat)
    requires from <= e <= |s| && (forall j :: from <= j < e ==> s[j] != '/') && (e < |s| ==> s[e] == '/')
    ensures NextSeparator(s, from) == e
  {
  }

  lemma SkipSeparator(t: string)
    ensures Components("/" + t) == Components(t)
  {
    assert ("/" + t)[1..] == t;
  }

  /** A joined list neither starts nor ends with a separator. */
  lemma {:induction false} JoinEnds(parts: seq<string>)
    requires parts != [] && forall i :: 0 <= i < |parts| ==> IsPart(parts[i])
    ensures Join(parts) != "" && Join(parts)[0] != '/' && Join(parts)[|Join(parts)| - 1] != '/'
    decreases |parts|
  {
    var p := parts[0];
    assert p[0] in p && p[|p| - 1] in p;
    if |parts| > 1 { JoinEnds(parts[1..]); }
  }

  lemma JoinCons(parts: seq<string>, tail: string)
    requires |parts| > 1
    ensures Join(parts) + tail == parts[0] + ("/" + (Join(parts[1..]) + tail))
  {
  }

  lemma {:induction false} JoinReadsBack(parts: seq<string>, tail: string)
    requires forall i :: 0 <= i < |parts| ==> IsPart(parts[i])
    requires tail == "" || tail == "/"
    ensures Components(Join(parts) + tail) == parts
    decreases |parts|
  {
    hide Components;
    NoComponents();
    SkipSeparator("");
    assert "/" + "" == "/";
    if parts == [] {
      assert "" + tail == tail;
    } else if |parts| == 1 {
      ComponentsCons(parts[0], tail);
      assert [parts[0]] + [] == parts;
    } else {
      hide Join;
      var rest := parts[1..];
      JoinReadsBack(rest, tail);
      JoinCons(parts, tail);
      ComponentsCons(parts[0], "/" + (Join(rest) + tail));
      SkipSeparator(Join(rest) + tail);
      assert [parts[0]] + rest == parts;
    }
  }

  /** A rendered path has the parts, the root and the trailing separator it was
      rendered with. */
  lemma RenderReadsBack(absolute: bool, parts: seq<string>, trailing: bool)
    requires forall i :: 0 <= i < |parts| ==> IsPart(parts[i])
    requires trailing ==> parts != []
    ensures var r := Render(absolute, parts, trailing);
            && Components(r) == parts && IsAbsolute(r) == absolute
            && (parts != [] ==> EndsWithSeparator(r) == trailing)
            && (r == "" <==> !absolute && parts == [])
  {
    hide Components, Join;
    var tail := if trailing then "/" else "";
    JoinReadsBack(parts, tail);
    if parts != [] { JoinEnds(parts); }
    JoinNothing();
    var r, body := Render(absolute, parts, trailing), Join(parts) + tail;
    if absolute {
      assert r == "/" + body;
      SkipSeparator(body);
    } else {
      assert r == body;
    }
  }

  lemma JoinNothing()
    ensures Join([]) == ""
  {
  }

  /** The parts of the normalised path. */
  lemma NormalisedParts(path: string)
    requires path != ""
    ensures var parts := NormalParts(IsAbsolute(path), [], Components(path));
            && Normal(IsAbsolute(path), parts) && Components(Normalised(path)) == parts
            && IsAbsolute(Normalised(path)) == IsAbsolute(path)
            && (parts != [] ==> EndsWithSeparator(Normalised(path)) == KeepsFinalSeparator(path, parts))
            && (Normalised(path) == "" <==> !IsAbsolute(path) && parts == [])
  {
    hide Components, NormalParts, Render;
    var absolute := IsAbsolute(path);
    var parts := NormalParts(absolute, [], Components(path));
    ComponentsAreParts(path);
    NormalPartsAreParts(absolute, [], Components(path));
    NormalPartsCorrect(absolute, [], [], Components(path));
    RenderReadsBack(absolute, parts, KeepsFinalSeparator(path, parts));
  }

  lemma {:induction false} NormalPartsAreParts(absolute: bool, done: seq<string>, rest: seq<string>)
    requires forall i :: 0 <= i < |done| ==> IsPart(done[i])
    requires forall i :: 0 <= i < |rest| ==> IsPart(rest[i])
    ensures forall i :: 0 <= i < |NormalParts(absolute, done, rest)| ==> IsPart(NormalParts(absolute, done, rest)[i])
    decreases |rest|
  {
    if rest != [] { NormalPartsAreParts(absolute, Step(absolute, done, rest[0]), rest[1..]); }
  }

  /** Normalising keeps the meaning: from every starting directory both paths
      lead to the same directory. */
  lemma NormalisedKeepsMeaning(dir: seq<string>, path: string)
    ensures Meaning(dir, Normalised(path)) == Meaning(dir, path)
  {
    if path != "" {
      hide Components, NormalParts, Normalised;
      NormalisedParts(path);
      var base := if IsAbsolute(path) then [] else dir;
      NormalPartsCorrect(IsAbsolute(path), base, [], Components(path));
    }
  }

  /** Normalising twice is normalising once. */
  lemma NormalisedIdempotent(path: string)
    ensures Normalised(Normalised(path)) == Normalised(path)
  {
    if path != "" && Normalised(path) != "" {
      hide Components, Render;
      var n := Normalised(path);
      NormalisedParts(path);
      NormalIsFixed(IsAbsolute(path), [], Components(n));
      assert [] + Components(n) == Components(n);
    }
  }

  // ----- what is kept, read off the input

  function HeightAfter(h: nat, p: string): nat {
    if p == "." then h else if p == ".." then (if h > 0 then h - 1 else 0) else h + 1
  }

  /** How many names are open after these parts: each name opens one, each ".."
      closes one if there is one. */
  function Height(c: seq<string>): nat {
    if c == [] then 0 else HeightAfter(Height(c[..|c| - 1]), c[|c| - 1])
  }

  /** Every ".." has a name to close. */
  ghost predicate Matched(c: seq<string>) {
    forall i :: 0 <= i < |c| && c[i] == ".." ==> Height(c[..i]) > 0
  }

  /** Some "." stands where no name is open. */
  ghost predicate DotAtGround(c: seq<string>) {
    exists i :: 0 <= i < |c| && c[i] == "." && Height(c[..i]) == 0
  }

  /** The parts cancel out: no name is open at the end, and every "." or ".." comes
      while one is. */
  ghost predicate Cancels(c: seq<string>) {
    Height(c) == 0 && forall i :: 0 <= i < |c| && !IsName(c[i]) ==> Height(c[..i]) > 0
  }

  /** The last h parts, and no more, are names, after a start of `lead` only. */
  ghost predicate NamesAfter(lead: string, kept: seq<string>, h: nat) {
    && |kept| > h && kept[0] == lead && kept[|kept| - 1 - h] == lead
    && forall i :: |kept| - h <= i < |kept| ==> IsName(kept[i])
  }

  ghost predicate NamesOnly(kept: seq<string>, h: nat) {
    |kept| == h && forall i :: 0 <= i < |kept| ==> IsName(kept[i])
  }

  /** What the walk keeps: names only; a "." and then names; or some ".." and then
      names. The number of names is the height. */
  ghost predicate Keeps(absolute: bool, c: seq<string>, kept: seq<string>) {
    if absolute || (Matched(c) && !DotAtGround(c)) then NamesOnly(kept, Height(c))
    else if Matched(c) then NamesAfter(".", kept, Height(c)) && |kept| == 1 + Height(c)
    else NamesAfter("..", kept, Height(c))
  }

  lemma {:induction false} NormalPartsSnoc(absolute: bool, done: seq<string>, rest: seq<string>, p: string)
    ensures NormalParts(absolute, done, rest + [p]) == Step(absolute, NormalParts(absolute, done, rest), p)
    decreases |rest|
  {
    hide Step;
    if rest == [] {
      assert (rest + [p])[1..] == [];
    } else {
      assert (rest + [p])[1..] == rest[1..] + [p];
      NormalPartsSnoc(absolute, Step(absolute, done, rest[0]), rest[1..], p);
    }
  }

  lemma SnocFacts(c: seq<string>, p: string)
    ensures Height(c + [p]) == HeightAfter(Height(c), p)
    ensures Matched(c + [p]) <==> Matched(c) && (p == ".." ==> Height(c) > 0)
    ensures DotAtGround(c + [p]) <==> DotAtGround(c) || (p == "." && Height(c) == 0)
  {
    var d := c + [p];
    assert d[..|c|] == c && d[|c|] == p;
    assert forall i :: 0 <= i < |c| ==> d[i] == c[i] && d[..i] == c[..i];
    if DotAtGround(c) {
      var i :| 0 <= i < |c| && c[i] == "." && Height(c[..i]) == 0;
      assert d[i] == "." && Height(d[..i]) == 0;
    }
  }

  lemma StepFromNames(absolute: bool, kept: seq<string>, h: nat, p: string)
    requires NamesOnly(kept, h)
    ensures absolute || IsName(p) || h > 0 ==> NamesOnly(Step(absolute, kept, p), HeightAfter(h, p))
    ensures !absolute && !IsName(p) && h == 0 ==>
              NamesAfter(p, Step(absolute, kept, p), 0) && |Step(absolute, kept, p)| == 1
  {
  }

  lemma StepFromDot(kept: seq<string>, h: nat, p: string)
    requires NamesAfter(".", kept, h) && |kept| == 1 + h
    ensures p != ".." || h > 0 ==>
              && NamesAfter(".", Step(false, kept, p), HeightAfter(h, p))
              && |Step(false, kept, p)| == 1 + HeightAfter(h, p)
    ensures p == ".." && h == 0 ==> NamesAfter("..", Step(false, kept, p), 0)
  {
  }

  lemma StepFromUp(kept: seq<string>, h: nat, p: string)
    requires NamesAfter("..", kept, h)
    ensures NamesAfter("..", Step(false, kept, p), HeightAfter(h, p))
  {
  }

  lemma StepKeeps(absolute: bool, c: seq<string>, kept: seq<string>, p: string)
    requires Keeps(absolute, c, kept)
    ensures Keeps(absolute, c + [p], Step(absolute, kept, p))
  {
    hide Matched, DotAtGround, Height, NamesAfter, NamesOnly, Step;
    SnocFacts(c, p);
    var h := Height(c);
    if absolute || (Matched(c) && !DotAtGround(c)) {
      StepFromNames(absolute, kept, h, p);
    } else if Matched(c) {
      StepFromDot(kept, h, p);
    } else {
      StepFromUp(kept, h, p);
    }
  }

  lemma {:induction false} NormalPartsKeeps(absolute: bool, c: seq<string>)
    ensures Keeps(absolute, c, NormalParts(absolute, [], c))
  {
    if c != [] {
      hide Keeps, NormalParts;
      var init, p := c[..|c| - 1], c[|c| - 1];
      assert c == init + [p];
      NormalPartsKeeps(absolute, init);
      NormalPartsSnoc(absolute, [], init, p);
      StepKeeps(absolute, init, NormalParts(absolute, [], init), p);
    }
  }

  /** Exactly when the result is empty, read off the input: the path is relative and
      its parts cancel out. */
  lemma EmptyIffCancels(path: string)
    requires path != ""
    ensures Normalised(path) == "" <==> !IsAbsolute(path) && Cancels(Components(path))
  {
    hide Normalised, NormalParts, Components;
    NormalisedParts(path);
    NormalPartsKeeps(IsAbsolute(path), Components(path));
    CancelsIff(Components(path));
  }

  lemma CancelsIff(c: seq<string>)
    ensures Cancels(c) <==> Height(c) == 0 && Matched(c) && !DotAtGround(c)
  {
    hide Height;
  }

  /** The smallest such path: a name followed by "..". */
  lemma CancelledPathIsEmpty(name: string)
    requires IsPart(name) && IsName(name)
    ensures Normalised(name + "/..") == ""
  {
    hide Components;
    var path := name + "/..";
    assert path[0] == name[0] && name[0] in name;
    ComponentsCons(name, "/..");
    assert "/" + ".." == "/..";
    SkipSeparator("..");
    ComponentsCons("..", "");
    assert ".." + "" == "..";
    NoComponents();
    var c := [name, ".."];
    assert Components(path) == c;
    assert Step(false, [], name) == [name] && Step(false, [name], "..") == [];
    assert c[1..] == [".."] && [".."][1..] == [];
    assert NormalParts(false, [name], [".."]) == [];
  }
}
