/** JSON text written from a tree, with blanks anywhere between tokens, and that the
    reading of the grammar gives back exactly the tree. */
module JsonWriter {
  import opened Options
  import opened JsonText
  import opened JsonNumber
  import opened JsonLexeme
  import opened JsonTree
  import opened JsonPool
  import opened JsonPrint
  import opened JsonSpelling
  import opened JsonParser

  /** A name between quotes, escaped only if it has to be. */
  function NameQuoted(name: string): string { if Raw(name) then "\"" + name + "\"" else InQuotes(name) }

  function NameText(name: Option<string>, gap: string): string {
    if name.None? then "" else NameQuoted(name.value) + gap + ":" + gap
  }

  /** A member: its name if it has one, and its value. */
  function Write(j: Json, gap: string): string
    decreases j, 2
  {
    NameText(j.name, gap) + ValueText(j, gap)
  }

  function ValueText(j: Json, gap: string): string
    decreases j, 1
  {
    match j
    case Leaf(_, kind, text) => if kind == Text then InQuotes(text) else text
    case Container(_, isArray, kids) =>
      if isArray then "[" + gap + KidsText(kids, gap) + "]" else "{" + gap + KidsText(kids, gap) + "}"
  }

  /** Members separated by commas. */
  function KidsText(kids: seq<Json>, gap: string): string
    decreases kids, 0
  {
    if kids == [] then ""
    else Write(kids[0], gap) + gap + if |kids| == 1 then "" else "," + gap + KidsText(kids[1..], gap)
  }

  ghost predicate LeafOk(kind: LeafKind, text: string) {
    CString(text) &&
    match kind
    case Text => Clean(text)
    case Boolean => text == "true" || text == "false"
    case Null => text == "null"
    case Integer => NumberLexeme(text, false)
    case Real => NumberLexeme(text, true)
  }

  /** Members of objects have writable names, members of arrays none; leaves are
      lexemes of their kind. */
  ghost predicate WellFormed(j: Json, inArray: bool)
    decreases j
  {
    && j.name.None? == inArray && (j.name.Some? ==> Writable(j.name.value))
    && match j
       case Leaf(_, kind, text) => LeafOk(kind, text)
       case Container(_, isArray, kids) => forall i :: 0 <= i < |kids| ==> WellFormed(kids[i], isArray)
  }

  /** A value starts with none of the characters that separate or close. */
  lemma FirstOfValue(j: Json, gap: string, inArray: bool)
    requires WellFormed(j, inArray)
    ensures ValueText(j, gap) != ""
    ensures ValueText(j, gap)[0] !in {' ', '\n', '\r', '\t', '\U{0C}', ',', '}', ']'}
    ensures j.Container? <==> ValueText(j, gap)[0] in {'{', '['}
  {
    if j.Leaf? {
      if j.kind == Integer { NumberStarts(j.text, false); }
      if j.kind == Real { NumberStarts(j.text, true); }
    }
  }

  lemma NumberStarts(t: string, isReal: bool)
    requires NumberLexeme(t, isReal)
    ensures t != "" && (t[0] == '-' || '0' <= t[0] <= '9')
  {
    var i: nat, f: nat :| InParts(t, i, f) && isReal == (i < |t|)
                          && (isReal || -9223372036854775808 <= IntValue(t) <= 9223372036854775807);
    assert t[..i][0] == t[0];
  }

  lemma RawQuotedReads(s: string, p: nat, name: string)
    requires CString(s) && Raw(name) && Spells(s, p, "\"" + name + "\"")
    ensures p < |s| && s[p] == '\"' && ParseString(s, p + 1) == Some((name, p + |name| + 2))
  {
    hide ParseString, CString, Spells, Raw;
    Regroup("\"", name, "\"");
    SpellsSplit(s, p, "\"", name + "\"");
    SpellsHead(s, p, "\"");
    RawIff(s, p + 1, name);
  }

  lemma NameQuotedReads(s: string, p: nat, name: string)
    requires CString(s) && Writable(name) && Spells(s, p, NameQuoted(name))
    ensures p < |s| && s[p] == '\"' && ParseString(s, p + 1) == Some((name, p + |NameQuoted(name)|))
  {
    hide ParseString, InQuotes, CString, Writable, Spells, Raw;
    if Raw(name) {
      RawQuotedReads(s, p, name);
    } else {
      QuotedReads(s, p, name);
    }
  }

  lemma NameThenColon(s: string, p: nat, name: string, n: nat, c: nat, v: nat)
    requires CString(s) && p < |s| && s[p] == '\"' && ParseString(s, p + 1) == Some((name, n))
    requires GoBlank(s, n) == Some(c) && s[c] == ':' && GoBlank(s, c + 1) == Some(v)
    ensures ParseName(s, p, false) == Some((Some(name), v))
  {
    hide ParseString, CString, GoBlank;
  }

  /** The name and the colon are read, and the value starts where the writer put it. */
  lemma NameReads(s: string, p: nat, name: Option<string>, gap: string)
    requires CString(s) && Blanks(gap) && Spells(s, p, NameText(name, gap)) && (name.Some? ==> Writable(name.value))
    requires var v := p + |NameText(name, gap)|; v < |s| && !IsBlank(s[v])
    ensures p < |s| && ParseName(s, p, name.None?) == Some((name, p + |NameText(name, gap)|))
  {
    hide ParseString, NameQuoted, CString, Writable, IsBlank, GoBlank, Blanks, Spells;
    if name.Some? {
      NamedReads(s, p, name.value, gap);
    }
  }

  lemma NamedReads(s: string, p: nat, name: string, gap: string)
    requires CString(s) && Blanks(gap) && Spells(s, p, NameQuoted(name) + gap + ":" + gap) && Writable(name)
    requires var v := p + |NameQuoted(name)| + 2 * |gap| + 1; v < |s| && !IsBlank(s[v])
    ensures p < |s| && ParseName(s, p, false) == Some((Some(name), p + |NameQuoted(name)| + 2 * |gap| + 1))
  {
    hide ParseString, ParseName, NameQuoted, CString, Writable, IsBlank, GoBlank, Blanks, Spells;
    var w := NameQuoted(name);
    Grouped(w, gap, ":", gap);
    SpellsSplit(s, p, w, gap + (":" + gap));
    NameQuotedReads(s, p, name);
    var n := p + |w|;
    ColonReads(s, n, gap);
    NameThenColon(s, p, name, n, n + |gap|, n + 2 * |gap| + 1);
  }

  lemma LiteralReads(s: string, p: nat, w: string)
    requires Spells(s, p, w)
    ensures CheckStr(s, p, w)
    decreases |w|
  {
    if w != "" {
      assert w == [w[0]] + w[1..];
      SpellsHead(s, p, w);
      SpellsSplit(s, p, [w[0]], w[1..]);
      LiteralReads(s, p + 1, w[1..]);
    }
  }

  /** A leaf is read with its kind and its text. */
  lemma LeafReads(s: string, p: nat, j: Json, gap: string)
    requires CString(s) && j.Leaf? && LeafOk(j.kind, j.text) && Spells(s, p, ValueText(j, gap))
    requires var e := p + |ValueText(j, gap)|; e < |s| && EndsPrimitive(s[e])
    ensures p < |s| && ParseLeaf(s, p).Some?
    ensures var e := p + |ValueText(j, gap)|;
            ParseLeaf(s, p).value == (j.kind, j.text, if j.kind == Text then e else SetToNull(s, e))
  {
    hide ParseString, Escaped, CString, Clean, ParseNumber, NumberLexeme, EndsPrimitive, SetToNull, CheckStr;
    var w := ValueText(j, gap);
    if j.kind == Text {
      QuotedReads(s, p, j.text);
    } else {
      if j.kind == Integer { NumberStarts(w, false); NumberIff(s, p, p + |w|, false); }
      if j.kind == Real { NumberStarts(w, true); NumberIff(s, p, p + |w|, true); }
      SpellsHead(s, p, w);
      LiteralReads(s, p, w);
    }
  }

  // ----- members

  /** A separator makes no difference to what is read from it on. */
  lemma SeparatorSkipped(s: string, p: nat, isArray: bool, kids: seq<Json>, free: nat)
    requires CString(s) && p < |s| && (IsBlank(s[p]) || s[p] == ',')
    ensures Members(s, p, isArray, kids, free) == Members(s, p + 1, isArray, kids, free)
  {
    hide ParseLeaf, ParseName, IsBlank;
    if IsBlank(s[p]) {
      MembersAgree(s, p, p + 1, isArray, kids, free);
    } else {
      NotBlank(',');
    }
  }

  lemma MembersAgree(s: string, p: nat, q: nat, isArray: bool, kids: seq<Json>, free: nat)
    requires CString(s) && GoBlank(s, p) == GoBlank(s, q)
    ensures Members(s, p, isArray, kids, free) == Members(s, q, isArray, kids, free)
  {
    hide ParseLeaf, ParseName, GoBlank, IsBlank;
  }

  lemma GapBetween(s: string, p: nat, gap: string, isArray: bool, kids: seq<Json>, free: nat)
    requires CString(s) && Spells(s, p, gap) && Blanks(gap)
    ensures Members(s, p, isArray, kids, free) == Members(s, p + |gap|, isArray, kids, free)
  {
    hide Members, GoBlank;
    GapSkipped(s, p, gap);
    MembersAgree(s, p, p + |gap|, isArray, kids, free);
  }

  ghost predicate MemberStarts(c: char) { c !in {' ', '\n', '\r', '\t', '\U{0C}', ',', '}', ']'} }

  lemma MemberStart(s: string, p: nat, j: Json, gap: string, inArray: bool)
    requires CString(s) && Blanks(gap) && WellFormed(j, inArray) && Spells(s, p, Write(j, gap))
    ensures var v := p + |NameText(j.name, gap)|;
            && v < |s| && MemberStarts(s[p]) && Spells(s, v, ValueText(j, gap))
            && s[v] == ValueText(j, gap)[0] && (j.Container? <==> s[v] in {'{', '['})
            && ParseName(s, p, inArray) == Some((j.name, v))
  {
    hide ValueText, ParseName, Blanks, Writable, NameQuoted, Spells;
    var n := NameText(j.name, gap);
    SpellsSplit(s, p, n, ValueText(j, gap));
    FirstOfValue(j, gap, inArray);
    SpellsHead(s, p + |n|, ValueText(j, gap));
    NotBlank(s[p + |n|]);
    NameReads(s, p, j.name, gap);
  }

  lemma LeafStep(s: string, p: nat, isArray: bool, kids: seq<Json>, free: nat, j: Json, v: nat, next: nat)
    requires CString(s) && p < |s| && MemberStarts(s[p]) && j.Leaf?
    requires ParseName(s, p, isArray) == Some((j.name, v)) && s[v] !in {'{', '['}
    requires ParseLeaf(s, v) == Some((j.kind, j.text, next))
    ensures Members(s, p, isArray, kids, free)
         == if free == 0 then None else Members(s, next, isArray, kids + [j], free - 1)
  {
    hide ParseName, ParseLeaf, GoBlank, IsBlank;
    NotBlank(s[p]);
    NoBlank(s, p);
  }

  /** Opening a container inside one. */
  function Inside(s: string, v: nat, name: Option<string>, inner: Option<(seq<Json>, nat, nat)>,
                  isArray: bool, kids: seq<Json>): Option<(seq<Json>, nat, nat)>
    requires CString(s) && v < |s|
  {
    if inner.None? then None
    else Members(s, inner.value.1, isArray, kids + [Container(name, s[v] == '[', inner.value.0)], inner.value.2)
  }

  lemma OpenStep(s: string, p: nat, isArray: bool, kids: seq<Json>, free: nat, name: Option<string>, v: nat)
    requires CString(s) && p < |s| && MemberStarts(s[p])
    requires ParseName(s, p, isArray) == Some((name, v)) && s[v] in {'{', '['}
    ensures Members(s, p, isArray, kids, free)
         == if free == 0 then None
            else Inside(s, v, name, Members(s, v + 1, s[v] == '[', [], free - 1), isArray, kids)
  {
    hide ParseName, ParseLeaf, GoBlank, IsBlank;
    NotBlank(s[p]);
    NoBlank(s, p);
  }

  /** What reading a written member, or a row of them, does to a container: it adds
      exactly them, provided the pool has nodes for them. */
  ghost predicate Adds(s: string, p: nat, e: nat, isArray: bool, kids: seq<Json>, more: seq<Json>, size: nat, free: nat)
    requires CString(s)
  {
    Members(s, p, isArray, kids, free)
    == if size <= free then Members(s, e, isArray, kids + more, free - size) else None
  }

  lemma LeafAdds(s: string, p: nat, j: Json, gap: string, isArray: bool, kids: seq<Json>, free: nat)
    requires CString(s) && Blanks(gap) && WellFormed(j, isArray) && j.Leaf? && Spells(s, p, Write(j, gap))
    requires var e := p + |Write(j, gap)|; e < |s| && EndsPrimitive(s[e])
    ensures Adds(s, p, p + |Write(j, gap)|, isArray, kids, [j], 1, free)
  {
    hide ValueText, ParseName, ParseLeaf, Blanks, NameText, Spells, Members, GoBlank, EndsPrimitive, IsBlank;
    MemberStart(s, p, j, gap, isArray);
    var v, e := p + |NameText(j.name, gap)|, p + |Write(j, gap)|;
    LeafReads(s, v, j, gap);
    var next := ParseLeaf(s, v).value.2;
    LeafStep(s, p, isArray, kids, free, j, v, next);
    if next != e && free > 0 {
      Separates(s[e]);
      SeparatorSkipped(s, e, isArray, kids + [j], free - 1);
    }
  }

  lemma Separates(c: char)
    requires EndsPrimitive(c)
    ensures EndsBlock(c) || IsBlank(c) || c == ','
  {
  }

  lemma AddsThen(s: string, p: nat, m: nat, e: nat, isArray: bool, kids: seq<Json>,
                 a: seq<Json>, na: nat, b: seq<Json>, nb: nat, free: nat)
    requires CString(s) && Adds(s, p, m, isArray, kids, a, na, free)
    requires na <= free ==> Adds(s, m, e, isArray, kids + a, b, nb, free - na)
    ensures Adds(s, p, e, isArray, kids, a + b, na + nb, free)
  {
    hide Members;
    assert (kids + a) + b == kids + (a + b);
  }

  /** What follows a member: blanks, and unless it is the last one a comma, blanks
      and the others. */
  function Tail(rest: seq<Json>, gap: string): string {
    gap + if rest == [] then "" else "," + gap + KidsText(rest, gap)
  }

  lemma KidsTextSplit(kids: seq<Json>, gap: string)
    requires kids != []
    ensures KidsText(kids, gap) == Write(kids[0], gap) + Tail(kids[1..], gap)
  {
    hide Write;
  }

  /** A member is followed by something that ends a primitive. */
  lemma TailEnds(s: string, m: nat, rest: seq<Json>, gap: string)
    requires Blanks(gap) && Spells(s, m, Tail(rest, gap))
    requires var e := m + |Tail(rest, gap)|; e < |s| && s[e] in {'}', ']'}
    ensures m < |s| && EndsPrimitive(s[m])
  {
    hide KidsText;
    if Tail(rest, gap) != "" { SpellsHead(s, m, Tail(rest, gap)); }
  }

  lemma {:induction false} MemberAdds(s: string, p: nat, j: Json, gap: string, isArray: bool, kids: seq<Json>,
                                      free: nat)
    requires CString(s) && Blanks(gap) && WellFormed(j, isArray) && Spells(s, p, Write(j, gap))
    requires var e := p + |Write(j, gap)|; e < |s| && EndsPrimitive(s[e])
    ensures Adds(s, p, p + |Write(j, gap)|, isArray, kids, [j], Size(j), free)
    decreases j, 2
  {
    hide ValueText, ParseName, Blanks, NameText, Spells, Members, EndsPrimitive;
    if j.Leaf? {
      LeafAdds(s, p, j, gap, isArray, kids, free);
    } else {
      MemberStart(s, p, j, gap, isArray);
      var v := p + |NameText(j.name, gap)|;
      OpenStep(s, p, isArray, kids, free, j.name, v);
      if free > 0 { ContainerReads(s, v, j, gap, isArray, free - 1); }
    }
  }

  lemma ContainerParts(s: string, v: nat, j: Json, gap: string)
    requires j.Container? && Spells(s, v, ValueText(j, gap))
    ensures var p := v + 1 + |gap|; var e := p + |KidsText(j.kids, gap)|;
            && v + |ValueText(j, gap)| == e + 1 <= |s|
            && s[v] == (if j.isArray then '[' else '{') && s[e] == (if j.isArray then ']' else '}')
            && Spells(s, v + 1, gap) && Spells(s, p, KidsText(j.kids, gap))
  {
    hide KidsText, Spells;
    var open := if j.isArray then "[" else "{";
    var row, close := KidsText(j.kids, gap), if j.isArray then "]" else "}";
    Grouped(open, gap, row, close);
    SpellsHead(s, v, ValueText(j, gap));
    SpellsSplit(s, v, open, gap + (row + close));
    SpellsSplit(s, v + 1, gap, row + close);
    SpellsSplit(s, v + 1 + |gap|, row, close);
    SpellsHead(s, v + 1 + |gap| + |row|, close);
  }

  lemma Grouped(a: string, b: string, c: string, d: string)
    ensures a + b + c + d == a + (b + (c + d))
  {
  }

  /** A written container is read to its end. */
  lemma {:induction false} ContainerReads(s: string, v: nat, j: Json, gap: string, inArray: bool, free: nat)
    requires CString(s) && Blanks(gap) && WellFormed(j, inArray) && j.Container? && Spells(s, v, ValueText(j, gap))
    ensures v < |s| && s[v] == if j.isArray then '[' else '{'
    ensures var n := SizeAll(j.kids);
            Members(s, v + 1, j.isArray, [], free)
            == if n <= free then Some((j.kids, v + |ValueText(j, gap)|, free - n)) else None
    decreases j, 1
  {
    hide KidsText, ValueText, Blanks, Spells, Members, SizeAll, CString;
    var kids, isArray := j.kids, j.isArray;
    ContainerParts(s, v, j, gap);
    var p := v + 1 + |gap|;
    var e := p + |KidsText(kids, gap)|;
    GapBetween(s, v + 1, gap, isArray, [], free);
    KidsAdd(s, p, isArray, [], kids, gap, free);
    assert [] + kids == kids;
    if SizeAll(kids) <= free { Closes(s, e, isArray, kids, free - SizeAll(kids)); }
  }

  lemma Closes(s: string, e: nat, isArray: bool, kids: seq<Json>, free: nat)
    requires CString(s) && e < |s| && s[e] == if isArray then ']' else '}'
    ensures Members(s, e, isArray, kids, free) == Some((kids, e + 1, free))
  {
    hide ParseName, ParseLeaf;
  }

  lemma {:induction false} KidsAdd(s: string, p: nat, isArray: bool, kids: seq<Json>, more: seq<Json>, gap: string,
                                   free: nat)
    requires CString(s) && Blanks(gap) && Spells(s, p, KidsText(more, gap))
    requires forall i :: 0 <= i < |more| ==> WellFormed(more[i], isArray)
    requires var e := p + |KidsText(more, gap)|; e < |s| && s[e] in {'}', ']'}
    ensures Adds(s, p, p + |KidsText(more, gap)|, isArray, kids, more, SizeAll(more), free)
    decreases more, 0
  {
    hide Write, Blanks, Spells, Members, WellFormed, Tail, EndsPrimitive, Adds, Size;
    if more == [] {
      AddsNothing(s, p, isArray, kids, free);
    } else {
      var j, rest := more[0], more[1..];
      var m := p + |Write(j, gap)|;
      var e := p + |KidsText(more, gap)|;
      KidsTextSplit(more, gap);
      SpellsSplit(s, p, Write(j, gap), Tail(rest, gap));
      TailEnds(s, m, rest, gap);
      MemberAdds(s, p, j, gap, isArray, kids, free);
      if Size(j) <= free { TailAdds(s, m, isArray, kids + [j], rest, gap, free - Size(j)); }
      AddsThen(s, p, m, e, isArray, kids, [j], Size(j), rest, SizeAll(rest), free);
      assert [j] + rest == more;
    }
  }

  lemma AddsNothing(s: string, p: nat, isArray: bool, kids: seq<Json>, free: nat)
    requires CString(s)
    ensures Adds(s, p, p, isArray, kids, [], 0, free)
  {
    hide Members;
    assert kids + [] == kids;
  }

  lemma {:induction false} TailAdds(s: string, m: nat, isArray: bool, kids: seq<Json>, rest: seq<Json>, gap: string,
                                    free: nat)
    requires CString(s) && Blanks(gap) && Spells(s, m, Tail(rest, gap))
    requires forall i :: 0 <= i < |rest| ==> WellFormed(rest[i], isArray)
    requires var e := m + |Tail(rest, gap)|; e < |s| && s[e] in {'}', ']'}
    ensures Adds(s, m, m + |Tail(rest, gap)|, isArray, kids, rest, SizeAll(rest), free)
    decreases rest, 1
  {
    hide Blanks, Spells, Members, WellFormed, KidsText;
    var tail := if rest == [] then "" else "," + gap + KidsText(rest, gap);
    SpellsSplit(s, m, gap, tail);
    GapBetween(s, m, gap, isArray, kids, free);
    var c := m + |gap|;
    if rest == [] {
      AddsNothing(s, c, isArray, kids, free);
    } else {
      assert tail == "," + (gap + KidsText(rest, gap));
      SpellsSplit(s, c, ",", gap + KidsText(rest, gap));
      SpellsHead(s, c, ",");
      SeparatorSkipped(s, c, isArray, kids, free);
      SpellsSplit(s, c + 1, gap, KidsText(rest, gap));
      GapBetween(s, c + 1, gap, isArray, kids, free);
      KidsAdd(s, c + 1 + |gap|, isArray, kids, rest, gap, free);
    }
  }

  // ----- whole documents

  lemma {:induction false} EscapedIsC(src: string)
    requires Writable(src)
    ensures CString(Escaped(src))
  {
    hide Written, Width, CString, NeedsUnicode;
    if src == "" {
      NothingIsC();
    } else {
      FirstOk(src);
      WrittenClean(src[0], ' ');
      EscapedIsC(src[1..]);
      BothC(Written(src[0], ' '), Escaped(src[1..]));
    }
  }

  lemma NothingIsC()
    ensures CString("") && CString("\"")
  {
  }

  lemma NameIsC(name: Option<string>, gap: string)
    requires Blanks(gap) && (name.Some? ==> Writable(name.value))
    ensures CString(NameText(name, gap)) && CString(gap)
  {
    hide Escaped, Raw, Clean;
    if name.Some? { EscapedIsC(name.value); }
  }

  lemma {:induction false} WriteIsC(j: Json, gap: string, inArray: bool)
    requires Blanks(gap) && WellFormed(j, inArray)
    ensures CString(Write(j, gap))
    decreases j, 1
  {
    hide NameText, Escaped, Blanks, KidsText, NumberLexeme;
    NameIsC(j.name, gap);
    if j.Leaf? {
      if j.kind == Text { EscapedIsC(j.text); }
    } else {
      KidsTextIsC(j.kids, gap, j.isArray);
    }
  }

  lemma {:induction false} KidsTextIsC(kids: seq<Json>, gap: string, isArray: bool)
    requires Blanks(gap) && forall i :: 0 <= i < |kids| ==> WellFormed(kids[i], isArray)
    ensures CString(KidsText(kids, gap))
    decreases kids, 0
  {
    hide Write, WellFormed, Blanks;
    NameIsC(None, gap);
    if kids != [] {
      WriteIsC(kids[0], gap, isArray);
      KidsTextIsC(kids[1..], gap, isArray);
    }
  }

  /** A text that starts with blanks and an object. */
  function DocumentText(t: Json, gap: string, after: string): string { gap + Write(t, gap) + after }

  lemma DocumentIsC(t: Json, gap: string, after: string)
    requires Blanks(gap) && WellFormed(t, true) && CString(after)
    ensures CString(DocumentText(t, gap, after))
  {
    hide Write, WellFormed, Blanks;
    NameIsC(None, gap);
    WriteIsC(t, gap, true);
  }

  /** Whatever object is written, with any blanks between its tokens and any text after
      it, reading gives back exactly that object if its members fit the pool and fails
      otherwise. */
  lemma WrittenReadsBack(t: Json, gap: string, after: string, qty: nat)
    requires t.Container? && !t.isArray && WellFormed(t, true) && Blanks(gap) && CString(after) && qty > 0
    ensures CString(gap + Write(t, gap) + after)
    ensures ParseDocument(gap + Write(t, gap) + after, qty) == if Size(t) <= qty then Some(t) else None
  {
    hide Members, ValueText, Spells, Blanks, GoBlank, WellFormed, SizeAll, CString;
    var s, p := DocumentText(t, gap, after), |gap|;
    DocumentIsC(t, gap, after);
    Unnamed(t, gap);
    Placed(gap, Write(t, gap), after);
    SpellsSplit(s, 0, gap, Write(t, gap));
    ContainerReads(s, p, t, gap, true, qty - 1);
    GapSkipped(s, 0, gap);
    NotBlank(s[p]);
    NoBlank(s, p);
  }

  lemma Unnamed(t: Json, gap: string)
    requires WellFormed(t, true)
    ensures Write(t, gap) == ValueText(t, gap) && t.name.None?
  {
    hide ValueText;
    assert "" + ValueText(t, gap) == ValueText(t, gap);
  }

  lemma Placed(a: string, b: string, c: string)
    ensures Spells(a + b + c, 0, a + b)
  {
  }

  /** The punctuation, character by character: an object of a primitive and an array of
      one, with names that need no escapes. */
  lemma PunctuationRead(name: string, k: LeafKind, x: string, other: string, l: LeafKind, y: string, qty: nat)
    requires Raw(name) && Raw(other) && k != Text && l != Text && LeafOk(k, x) && LeafOk(l, y) && qty > 0
    ensures var s := "{\"" + name + "\":" + x + ",\"" + other + "\":[" + y + "]}";
            var t := Container(None, false, [Leaf(Some(name), k, x), Container(Some(other), true, [Leaf(None, l, y)])]);
            CString(s) && ParseDocument(s, qty) == if qty >= 4 then Some(t) else None
  {
    hide ParseDocument, LeafOk, CString;
    var a, c := Leaf(Some(name), k, x), Leaf(None, l, y);
    var b := Container(Some(other), true, [c]);
    var t := Container(None, false, [a, b]);
    RawIsWritable(name);
    RawIsWritable(other);
    assert WellFormed(c, true) && WellFormed(b, false) && WellFormed(a, false) && WellFormed(t, true);
    NothingIsC();
    WrittenReadsBack(t, "", "", qty);
    PunctuationWritten(a, b, c, name, other);
    PunctuationSize(a, b, c);
    assert "" + Write(t, "") + "" == Write(t, "");
  }

  lemma RawIsWritable(t: string)
    requires Raw(t)
    ensures Writable(t)
  {
  }

  lemma PunctuationSize(a: Json, b: Json, c: Json)
    requires a.Leaf? && c.Leaf? && b.Container? && b.kids == [c]
    ensures Size(Container(None, false, [a, b])) == 4
  {
    assert [c][1..] == [] && [a, b][1..] == [b] && [b][1..] == [];
    assert SizeAll([c]) == 1 && Size(b) == 2;
    assert SizeAll([b]) == 2;
    assert SizeAll([a, b]) == 3;
  }

  lemma OneKid(j: Json)
    ensures KidsText([j], "") == Write(j, "")
  {
    hide Write;
    assert Write(j, "") + "" + "" == Write(j, "");
  }

  lemma TwoKids(a: Json, b: Json)
    ensures KidsText([a, b], "") == Write(a, "") + "," + Write(b, "")
  {
    hide Write;
    OneKid(b);
    assert [a, b][1..] == [b];
    assert Write(a, "") + "" + ("," + "" + Write(b, "")) == Write(a, "") + "," + Write(b, "");
  }

  lemma RawName(name: string)
    requires Raw(name)
    ensures NameText(Some(name), "") == "\"" + name + "\":"
  {
    hide Raw, InQuotes;
  }

  lemma NoGap(name: Option<string>, isArray: bool, kids: seq<Json>)
    ensures Write(Container(name, isArray, kids), "")
         == NameText(name, "") + if isArray then "[" + KidsText(kids, "") + "]" else "{" + KidsText(kids, "") + "}"
  {
    hide NameText, KidsText;
    assert "[" + "" == "[" && "{" + "" == "{";
  }

  lemma PunctuationWritten(a: Json, b: Json, c: Json, name: string, other: string)
    requires a.Leaf? && a.kind != Text && a.name == Some(name) && c.Leaf? && c.kind != Text && c.name == None
    requires b == Container(Some(other), true, [c]) && Raw(name) && Raw(other)
    ensures Write(Container(None, false, [a, b]), "")
         == "{\"" + name + "\":" + a.text + ",\"" + other + "\":[" + c.text + "]}"
  {
    hide Raw, NameText, KidsText, Write;
    var n, o := NameText(Some(name), ""), NameText(Some(other), "");
    PrimitiveText(a);
    PrimitiveText(c);
    OneKid(c);
    TwoKids(a, b);
    NoGap(Some(other), true, [c]);
    NoGap(None, false, [a, b]);
    Glued(n, a.text, o, c.text);
    RawName(name);
    RawName(other);
    Spelled(name, a.text, other, c.text);
  }

  lemma PrimitiveText(j: Json)
    requires j.Leaf? && j.kind != Text
    ensures Write(j, "") == NameText(j.name, "") + j.text && (j.name.None? ==> Write(j, "") == j.text)
    ensures NameText(None, "") == ""
  {
    hide NameQuoted;
    assert "" + j.text == j.text;
  }

  lemma Glued(n: string, x: string, o: string, y: string)
    ensures "" + ("{" + ((n + x) + "," + (o + ("[" + y + "]"))) + "}") == ("{" + n + x) + ("," + o + "[") + y + "]}"
  {
    Grouped(n, x, ",", o + ("[" + y + "]"));
    Grouped("{", n, x, "," + (o + ("[" + y + "]")) + "}");
    assert "," + (o + ("[" + y + "]")) + "}" == ("," + o + "[") + y + "]}";
  }

  lemma Spelled(name: string, x: string, other: string, y: string)
    ensures ("{" + ("\"" + name + "\":") + x) + ("," + ("\"" + other + "\":") + "[") + y + "]}"
         == "{\"" + name + "\":" + x + ",\"" + other + "\":[" + y + "]}"
  {
    assert "{" + ("\"" + name + "\":") == "{\"" + name + "\":";
    assert "," + ("\"" + other + "\":") + "[" == ",\"" + other + "\":[";
    var front := "{\"" + name + "\":" + x;
    assert front + (",\"" + other + "\":[") == front + ",\"" + other + "\":[";
  }

  /** The parser on a written object: it succeeds exactly when the pool is large enough,
      and then the pool holds that object. */
  method CreateWritten(buf: array<char>, nodes: array<Node>, ghost t: Json, ghost gap: string, ghost after: string)
    returns (r: Option<nat>)
    requires t.Container? && !t.isArray && WellFormed(t, true) && Blanks(gap) && nodes.Length > 0
    requires Intact(buf, gap + Write(t, gap) + after, 0)
    modifies buf, nodes
    ensures r.Some? <==> Size(t) <= nodes.Length
    ensures r.Some? ==> r.value == 0 && exists end :: 0 <= end <= buf.Length && Shape(nodes[..], buf[..end], 0, t)
  {
    hide Shape, Write, WellFormed, ParseDocument, Size;
    ghost var s := gap + Write(t, gap) + after;
    AfterIsC(gap + Write(t, gap), after);
    WrittenReadsBack(t, gap, after, nodes.Length);
    r := JsonCreate(buf, nodes, s);
  }

  lemma AfterIsC(a: string, b: string)
    requires CString(a + b)
    ensures CString(b)
  {
    forall i | 0 <= i < |b| ensures b[i] != NUL {
      assert (a + b)[|a| + i] == b[i];
    }
  }
}
