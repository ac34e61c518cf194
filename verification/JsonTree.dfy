/** The tree a text denotes: a recursive-descent reading of the grammar the
    parser accepts, with the number of nodes the pool can still supply. */
module JsonTree {
  import opened Options
  import opened JsonText
  import opened JsonNumber

  datatype LeafKind = Text | Boolean | Integer | Real | Null

  datatype Json =
    | Leaf(name: Option<string>, kind: LeafKind, text: string)
    | Container(name: Option<string>, isArray: bool, kids: seq<Json>)

  /** Where parsing goes on after a primitive: past the separator that will be
      overwritten, unless that closes a block. */
  function SetToNull(s: string, e: nat): nat { if EndsBlock(At(s, e)) then e else e + 1 }

  /** The literal occurs at p. */
  predicate CheckStr(s: string, p: nat, literal: string)
    decreases |literal|
  {
    literal == "" || (At(s, p) == literal[0] && CheckStr(s, p + 1, literal[1..]))
  }

  function ParseLiteral(s: string, p: nat, literal: string, kind: LeafKind): Option<(LeafKind, string, nat)> {
    if CheckStr(s, p, literal) && EndsPrimitive(At(s, p + |literal|))
    then Some((kind, literal, SetToNull(s, p + |literal|))) else None
  }

  /** A value that is neither an object nor an array: its kind, its text and
      where parsing goes on. */
  function ParseLeaf(s: string, p: nat): (r: Option<(LeafKind, string, nat)>)
    requires CString(s) && p < |s|
    ensures r.Some? ==> p < r.value.2 <= |s|
    ensures EndsBlock(s[p]) ==> r.None?
  {
    match s[p]
    case '\"' =>
      var t := ParseString(s, p + 1);
      if t.Some? then Some((Text, t.value.0, t.value.1)) else None
    case 't' =>
      EndsInside(s, p + 4);
      ParseLiteral(s, p, "true", Boolean)
    case 'f' =>
      EndsInside(s, p + 5);
      ParseLiteral(s, p, "false", Boolean)
    case 'n' =>
      EndsInside(s, p + 4);
      ParseLiteral(s, p, "null", Null)
    case _ =>
      var n := ParseNumber(s, p);
      if n.Some? then
        EndsInside(s, n.value.1);
        Some((if n.value.0 then Real else Integer, s[p..n.value.1], SetToNull(s, n.value.1)))
      else None
  }

  lemma EndsInside(s: string, e: nat)
    ensures EndsPrimitive(At(s, e)) ==> e < |s|
  {
  }

  /** The name of a member: absent in an array, a string and a colon in an
      object. Also the position of the value, past any blanks. */
  function ParseName(s: string, p: nat, isArray: bool): (r: Option<(Option<string>, nat)>)
    requires CString(s) && p < |s|
    ensures r.Some? ==> p <= r.value.1 < |s|
    ensures r.Some? && !isArray ==> s[p] == '\"'
    ensures r.Some? && isArray ==> r.value == (None, p)
  {
    if isArray then Some((None, p))
    else if s[p] != '\"' then None
    else
      var n := ParseString(s, p + 1);
      if n.None? then None else
      var c := GoBlank(s, n.value.1);
      if c.None? || s[c.value] != ':' then None else
      var v := GoBlank(s, c.value + 1);
      if v.None? then None else Some((Some(n.value.0), v.value))
  }

  function CloserOf(isArray: bool): char { if isArray then ']' else '}' }

  /** Reads the rest of a container from p: `kids` are the members read so far
      and `free` the nodes left. Gives all the members, the position after the
      closing bracket and the nodes left then. Commas are skipped wherever they
      stand. */
  function Members(s: string, p: nat, isArray: bool, kids: seq<Json>, free: nat)
    : (r: Option<(seq<Json>, nat, nat)>)
    requires CString(s)
    ensures r.Some? ==> p < r.value.1 <= |s|
    decreases |s| - p
  {
    var b := GoBlank(s, p);
    if b.None? then None else
    var q := b.value;
    if s[q] == ',' then Members(s, q + 1, isArray, kids, free)
    else if s[q] == CloserOf(isArray) then Some((kids, q + 1, free))
    else if free == 0 then None else
    var n := ParseName(s, q, isArray);
    if n.None? then None else
    var (name, v) := n.value;
    if s[v] == '{' || s[v] == '[' then
      var inner := Members(s, v + 1, s[v] == '[', [], free - 1);
      if inner.None? then None
      else Members(s, inner.value.1, isArray, kids + [Container(name, s[v] == '[', inner.value.0)], inner.value.2)
    else
      var leaf := ParseLeaf(s, v);
      if leaf.None? then None
      else Members(s, leaf.value.2, isArray, kids + [Leaf(name, leaf.value.0, leaf.value.1)], free - 1)
  }

  // ----- resuming inside open containers

  /** A container that has been opened and not yet closed. */
  datatype Frame = Frame(node: nat, name: Option<string>, isArray: bool, kids: seq<Json>) {
    function Add(j: Json): Frame { this.(kids := kids + [j]) }
  }

  /** What reading on from p yields when these containers are open, innermost
      last: the rest of the innermost, then of the one around it, and so on. */
  function Resume(s: string, p: nat, stack: seq<Frame>, free: nat): Option<(seq<Json>, nat, nat)>
    requires CString(s) && stack != []
    decreases |stack|
  {
    var top := stack[|stack| - 1];
    var r := Members(s, p, top.isArray, top.kids, free);
    if r.None? || |stack| == 1 then r
    else Resume(s, r.value.1, Close(stack, r.value.0), r.value.2)
  }

  /** Closes the innermost container with the given members. */
  function Close(stack: seq<Frame>, kids: seq<Json>): (r: seq<Frame>)
    requires |stack| > 1
    ensures |r| == |stack| - 1
  {
    var top, below := stack[|stack| - 1], stack[|stack| - 2];
    stack[..|stack| - 2] + [below.Add(Container(top.name, top.isArray, kids))]
  }

  /** Replaces the innermost container. */
  function WithTop(stack: seq<Frame>, f: Frame): seq<Frame>
    requires stack != []
  {
    stack[..|stack| - 1] + [f]
  }

  lemma ResumeEnds(s: string, p: nat, stack: seq<Frame>, free: nat)
    requires CString(s) && stack != [] && GoBlank(s, p).None?
    ensures Resume(s, p, stack, free).None?
  {
  }

  lemma {:induction false} BlanksAgain(s: string, p: nat)
    requires GoBlank(s, p).Some?
    ensures GoBlank(s, GoBlank(s, p).value) == GoBlank(s, p)
    decreases |s| - p
  {
    if IsBlank(s[p]) { BlanksAgain(s, p + 1); }
  }

  /** Skipping blanks first makes no difference. */
  lemma ResumeSkips(s: string, p: nat, stack: seq<Frame>, free: nat, q: nat)
    requires CString(s) && stack != [] && GoBlank(s, p) == Some(q)
    ensures GoBlank(s, q) == Some(q) && Resume(s, p, stack, free) == Resume(s, q, stack, free)
  {
    hide ParseLeaf, ParseName, GoBlank;
    BlanksAgain(s, p);
    MembersSkip(s, p, stack[|stack| - 1].isArray, stack[|stack| - 1].kids, free, q);
  }

  lemma MembersSkip(s: string, p: nat, isArray: bool, kids: seq<Json>, free: nat, q: nat)
    requires CString(s) && GoBlank(s, p) == Some(q) && GoBlank(s, q) == Some(q)
    ensures Members(s, p, isArray, kids, free) == Members(s, q, isArray, kids, free)
  {
    hide ParseLeaf, ParseName, GoBlank;
  }

  lemma ResumeDone(s: string, p: nat, stack: seq<Frame>, free: nat, q: nat)
    requires CString(s) && |stack| == 1 && GoBlank(s, p) == Some(q)
    requires s[q] != ',' && s[q] == CloserOf(stack[0].isArray)
    ensures Resume(s, p, stack, free) == Some((stack[0].kids, q + 1, free))
  {
  }

  lemma ResumeComma(s: string, p: nat, stack: seq<Frame>, free: nat, q: nat)
    requires CString(s) && stack != [] && GoBlank(s, p) == Some(q) && s[q] == ','
    ensures Resume(s, p, stack, free) == Resume(s, q + 1, stack, free)
  {
  }

  lemma ResumeClose(s: string, p: nat, stack: seq<Frame>, free: nat, q: nat)
    requires CString(s) && |stack| > 1 && GoBlank(s, p) == Some(q)
    requires s[q] != ',' && s[q] == CloserOf(stack[|stack| - 1].isArray)
    ensures Resume(s, p, stack, free) == Resume(s, q + 1, Close(stack, stack[|stack| - 1].kids), free)
  {
  }

  /** Without a name where one is needed, or without a free node, reading fails. */
  lemma ResumeFails(s: string, p: nat, stack: seq<Frame>, free: nat, q: nat)
    requires CString(s) && stack != [] && GoBlank(s, p) == Some(q)
    requires s[q] != ',' && s[q] != CloserOf(stack[|stack| - 1].isArray)
    requires free == 0 || ParseName(s, q, stack[|stack| - 1].isArray).None?
    ensures Resume(s, p, stack, free).None?
  {
    hide ParseLeaf, ParseName, GoBlank;
  }

  /** Reading a leaf member of the innermost container. */
  lemma ResumeLeaf(s: string, p: nat, stack: seq<Frame>, free: nat, q: nat, name: Option<string>, v: nat)
    requires CString(s) && stack != [] && free > 0 && GoBlank(s, p) == Some(q)
    requires s[q] != ',' && s[q] != CloserOf(stack[|stack| - 1].isArray)
    requires ParseName(s, q, stack[|stack| - 1].isArray) == Some((name, v)) && s[v] != '{' && s[v] != '['
    ensures ParseLeaf(s, v).None? ==> Resume(s, p, stack, free).None?
    ensures ParseLeaf(s, v).Some? ==>
      var (kind, text, next) := ParseLeaf(s, v).value;
      Resume(s, p, stack, free)
      == Resume(s, next, WithTop(stack, stack[|stack| - 1].Add(Leaf(name, kind, text))), free - 1)
  {
    hide ParseLeaf, ParseName, GoBlank;
    var leaf := ParseLeaf(s, v);
    if leaf.Some? {
      var top := stack[|stack| - 1];
      var stack' := WithTop(stack, top.Add(Leaf(name, leaf.value.0, leaf.value.1)));
      assert stack'[|stack'| - 1] == top.Add(Leaf(name, leaf.value.0, leaf.value.1));
      if |stack| > 1 {
        forall kids ensures Close(stack', kids) == Close(stack, kids) {}
      }
    }
  }

  /** Opening a container inside the innermost one. */
  lemma ResumeOpen(s: string, p: nat, stack: seq<Frame>, free: nat, q: nat, name: Option<string>, v: nat, node: nat)
    requires CString(s) && stack != [] && free > 0 && GoBlank(s, p) == Some(q)
    requires s[q] != ',' && s[q] != CloserOf(stack[|stack| - 1].isArray)
    requires ParseName(s, q, stack[|stack| - 1].isArray) == Some((name, v)) && (s[v] == '{' || s[v] == '[')
    ensures Resume(s, p, stack, free) == Resume(s, v + 1, stack + [Frame(node, name, s[v] == '[', [])], free - 1)
  {
    hide ParseLeaf, ParseName, GoBlank;
    var f := Frame(node, name, s[v] == '[', []);
    var stack' := stack + [f];
    assert stack'[|stack'| - 1] == f;
    var inner := Members(s, v + 1, f.isArray, [], free - 1);
    if inner.Some? {
      var top := stack[|stack| - 1];
      var c := Container(name, f.isArray, inner.value.0);
      assert Close(stack', inner.value.0) == WithTop(stack, top.Add(c));
      ResumeAgrees(s, inner.value.1, stack, top.Add(c), inner.value.2);
    }
  }

  /** With the innermost container replaced by one that differs in its members. */
  lemma ResumeAgrees(s: string, p: nat, stack: seq<Frame>, top': Frame, free: nat)
    requires CString(s) && stack != []
    requires top'.isArray == stack[|stack| - 1].isArray && top'.name == stack[|stack| - 1].name
    ensures var r := Members(s, p, top'.isArray, top'.kids, free);
            var rest := if r.None? || |stack| == 1 then r else Resume(s, r.value.1, Close(stack, r.value.0), r.value.2);
            Resume(s, p, WithTop(stack, top'), free) == rest
  {
    var stack' := WithTop(stack, top');
    assert stack'[|stack'| - 1] == top';
    if |stack| > 1 {
      forall kids ensures Close(stack', kids) == Close(stack, kids) {}
    }
  }
}
