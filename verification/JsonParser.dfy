/** The parser itself: one loop over the text, decoding strings and cutting
    lexemes in place, and linking nodes taken from the pool. */
module JsonParser {
  import opened Options
  import opened JsonText
  import opened JsonNumber
  import opened JsonTree
  import opened JsonPool

  /** The text settled so far: what lies before p and, when a bracket that will
      be overwritten stands at p, its terminator. */
  ghost function Settled(buf: array<char>, s: string, p: nat): string
    requires p <= buf.Length
    reads buf
  {
    buf[..p] + if EndsBlock(At(s, p)) then [NUL] else []
  }

  // ----- names and leaves

  /** The name of an object member, decoded in place, and where its value is. */
  method PropertyName(buf: array<char>, p: nat, ghost s: string) returns (r: Option<nat>)
    requires Intact(buf, s, p) && p < |s| && s[p] == '\"'
    modifies buf
    ensures r == if ParseName(s, p, false).Some? then Some(ParseName(s, p, false).value.1) else None
    ensures r.Some? ==> r.value < |s| && Intact(buf, s, r.value)
    ensures r.Some? ==> TextAt(buf[..r.value], p + 1, ParseName(s, p, false).value.0.value)
    ensures forall j :: 0 <= j < p ==> buf[j] == old(buf[j])
  {
    hide ParseString, GoBlank, IsBlank;
    var n := ParseStringInPlace(buf, p + 1, s);
    if n.None? {
      return None;
    }
    ghost var text := ParseString(s, p + 1).value.0;
    var c := SkipBlanks(buf, n.value, s);
    if c.None? {
      return None;
    }
    if buf[c.value] != ':' {
      return None;
    }
    r := SkipBlanks(buf, c.value + 1, s);
    if r.Some? {
      assert buf[..n.value] <= buf[..r.value];
      TextGrows(buf[..n.value], buf[..r.value], p + 1, text);
    }
  }

  /** Whether the literal stands at p. */
  method CheckLiteral(buf: array<char>, p: nat, literal: string, ghost s: string) returns (ok: bool)
    requires Intact(buf, s, p) && p <= |s| && CString(literal)
    ensures ok == CheckStr(s, p, literal)
    ensures ok ==> p + |literal| <= |s| && s[p..p + |literal|] == literal
  {
    hide CheckStr;
    var i := 0;
    assert literal[0..] == literal;
    while i < |literal|
      invariant 0 <= i <= |literal| && p + i <= |s|
      invariant forall j :: 0 <= j < i ==> s[p + j] == literal[j]
      invariant CheckStr(s, p, literal) == CheckStr(s, p + i, literal[i..])
    {
      CheckStep(s, p + i, literal, i);
      if buf[p + i] != literal[i] {
        return false;
      }
      i := i + 1;
    }
    CheckEnds(s, p + i, literal);
    return true;
  }

  lemma CheckStep(s: string, p: nat, literal: string, i: nat)
    requires i < |literal|
    ensures CheckStr(s, p, literal[i..]) == (At(s, p) == literal[i] && CheckStr(s, p + 1, literal[i + 1..]))
  {
    assert literal[i..][0] == literal[i] && literal[i..][1..] == literal[i + 1..];
  }

  lemma CheckEnds(s: string, p: nat, literal: string)
    ensures CheckStr(s, p, literal[|literal|..])
  {
  }

  /** Cuts off the lexeme that ends at e, unless a bracket does that later. */
  method CutLexeme(buf: array<char>, p: nat, e: nat, ghost s: string) returns (next: nat)
    requires Intact(buf, s, p) && p < e < |s| && EndsPrimitive(s[e])
    modifies buf
    ensures next == SetToNull(s, e) <= |s| && Intact(buf, s, next)
    ensures TextAt(Settled(buf, s, next), p, s[p..e])
    ensures forall j :: 0 <= j < e ==> buf[j] == old(buf[j])
  {
    hide IsBlank;
    next := e;
    if !EndsBlock(buf[e]) {
      buf[e] := NUL;
      next := e + 1;
    }
    assert Settled(buf, s, next)[p..e] == s[p..e];
  }

  datatype LeafValue = LeafValue(typ: NodeType, at: nat, next: nat)

  /** A leaf has been read as the grammar says and its text is in place. */
  ghost predicate Reads(buf: array<char>, s: string, r: Option<LeafValue>, leaf: Option<(LeafKind, string, nat)>)
    reads buf
  {
    && r.Some? == leaf.Some?
    && (r.Some? ==>
          var (kind, text, next) := leaf.value;
          && r.value.typ == TypeOf(kind) && r.value.next == next <= |s| && Intact(buf, s, next)
          && TextAt(Settled(buf, s, next), r.value.at, text))
  }

  /** One of the literals true, false and null. */
  method PrimitiveValue(buf: array<char>, p: nat, literal: string, kind: LeafKind, ghost s: string)
    returns (r: Option<LeafValue>)
    requires Intact(buf, s, p) && p < |s| && literal != "" && CString(literal)
    modifies buf
    ensures Reads(buf, s, r, ParseLiteral(s, p, literal, kind))
    ensures forall j :: 0 <= j < p ==> buf[j] == old(buf[j])
  {
    hide CheckStr, EndsPrimitive, TextAt;
    var ok := CheckLiteral(buf, p, literal, s);
    if !ok || !EndsPrimitive(buf[p + |literal|]) {
      return None;
    }
    EndsInside(s, p + |literal|);
    var next := CutLexeme(buf, p, p + |literal|, s);
    return Some(LeafValue(TypeOf(kind), p, next));
  }

  /** A string value. */
  method TextValue(buf: array<char>, p: nat, ghost s: string) returns (r: Option<LeafValue>)
    requires Intact(buf, s, p) && p < |s|
    modifies buf
    ensures Reads(buf, s, r, var t := ParseString(s, p + 1);
                             if t.Some? then Some((Text, t.value.0, t.value.1)) else None)
    ensures forall j :: 0 <= j < p ==> buf[j] == old(buf[j])
  {
    hide ParseString, TextAt;
    var e := ParseStringInPlace(buf, p + 1, s);
    if e.None? {
      return None;
    }
    TextGrows(buf[..e.value], Settled(buf, s, e.value), p + 1, ParseString(s, p + 1).value.0);
    return Some(LeafValue(TEXT, p + 1, e.value));
  }

  /** A value that is neither an object nor an array. */
  method ReadLeaf(buf: array<char>, p: nat, ghost s: string) returns (r: Option<LeafValue>)
    requires Intact(buf, s, p) && p < |s|
    modifies buf
    ensures Reads(buf, s, r, ParseLeaf(s, p))
    ensures forall j :: 0 <= j < p ==> buf[j] == old(buf[j])
  {
    hide ParseString, ParseNumber, ParseLiteral, EndsPrimitive, TextAt;
    match buf[p]
    case '\"' => r := TextValue(buf, p, s);
    case 't' => r := PrimitiveValue(buf, p, "true", Boolean, s);
    case 'f' => r := PrimitiveValue(buf, p, "false", Boolean, s);
    case 'n' => r := PrimitiveValue(buf, p, "null", Null, s);
    case _ =>
      var n := NumValue(buf, p, s);
      if n.None? {
        return None;
      }
      var next := CutLexeme(buf, p, n.value.1, s);
      return Some(LeafValue(if n.value.0 then REAL else INTEGER, p, next));
  }

  /** Appends node n to the members of obj. */
  method Add(nodes: array<Node>, obj: nat, n: nat)
    requires obj < n < nodes.Length && nodes[obj].u.Kids?
    requires nodes[obj].u.child.Some? ==> nodes[obj].u.last < nodes.Length
    modifies nodes
    ensures nodes[..] == AddLinks(old(nodes[..]), obj, n)
  {
    nodes[n] := nodes[n].(sibling := None);
    if nodes[obj].u.child.None? {
      nodes[obj] := nodes[obj].(u := Kids(Some(n), n));
    } else {
      var last := nodes[obj].u.last;
      nodes[last] := nodes[last].(sibling := Some(n));
      nodes[obj] := nodes[obj].(u := Kids(nodes[obj].u.child, n));
    }
  }

  // ----- members

  /** The name of a member, if its container has named members, and where its
      value starts. */
  method ReadName(buf: array<char>, q: nat, isArray: bool, ghost s: string) returns (r: Option<(Option<nat>, nat)>)
    requires Intact(buf, s, q) && q < |s|
    modifies buf
    ensures r.Some? == ParseName(s, q, isArray).Some?
    ensures r.Some? ==>
      var (name, v) := ParseName(s, q, isArray).value;
      r.value.1 == v && Intact(buf, s, v) && NameOk(buf[..v], r.value.0, name)
    ensures forall j :: 0 <= j < q ==> buf[j] == old(buf[j])
  {
    hide TextAt;
    if isArray {
      return Some((None, q));
    }
    if buf[q] != '\"' {
      return None;
    }
    var v := PropertyName(buf, q, s);
    if v.None? {
      return None;
    }
    return Some((Some(q + 1), v.value));
  }

  /** Names node n, appends it to the members of obj and points it at its text. */
  method Attach(nodes: array<Node>, obj: nat, n: nat, name: Option<nat>, at: nat)
    requires obj < n < nodes.Length && nodes[obj].u.Kids?
    requires nodes[obj].u.child.Some? ==> nodes[obj].u.last < n
    modifies nodes
    ensures nodes[..] == AddLinks(old(nodes[..]), obj, n)[n := nodes[n]]
    ensures nodes[n].name == name && nodes[n].u == Value(at) && nodes[n].sibling == None
  {
    ghost var before := nodes[..];
    nodes[n] := nodes[n].(name := name);
    ghost var x := nodes[n];
    assert nodes[..] == before[n := x];
    Add(nodes, obj, n);
    LinkedNode(before[n := x], obj, n);
    nodes[n] := nodes[n].(u := Value(at));
    AddLinksFresh(before, obj, n, x, nodes[n]);
  }

  lemma LinkedNode(nodes: seq<Node>, obj: nat, n: nat)
    requires obj < n < |nodes| && nodes[obj].u.Kids?
    requires nodes[obj].u.child.Some? ==> nodes[obj].u.last < n
    ensures AddLinks(nodes, obj, n)[n] == nodes[n].(sibling := None)
  {
  }

  ghost predicate SameRoot(stack: seq<Frame>, stack': seq<Frame>) {
    && stack != [] && stack' != []
    && stack'[0].name == stack[0].name && stack'[0].isArray == stack[0].isArray
  }

  /** A value that opens a container: its node becomes the innermost. */
  method OpenMember(buf: array<char>, nodes: array<Node>, obj: nat, n: nat, at: nat,
                    ghost s: string, ghost before: seq<Node>, ghost v: string, ghost stack: seq<Frame>, ghost f: Frame)
    requires Appended(before, nodes[..], v, stack, n) && obj == Top(stack).node
    requires Intact(buf, s, at) && at < |s| && (s[at] == '{' || s[at] == '[') && v <= buf[..at]
    requires f == Frame(n, f.name, s[at] == '[', []) && NameOk(buf[..at], nodes[n].name, f.name)
    modifies nodes
    ensures StackOk(nodes[..], Settled(buf, s, at + 1), stack + [f], n + 1)
  {
    hide StackOk, AddLinks, NameOk, TextAt, LevelOk;
    ghost var was := nodes[..];
    var isArray := buf[at] == '[';
    nodes[n] := nodes[n].(typ := ContainerType(isArray), u := Kids(None, 0), sibling := Some(obj));
    ghost var v' := Settled(buf, s, at + 1);
    assert nodes[..] == was[n := nodes[n]];
    StackText(before, v, v', stack, n);
    NameGrows(buf[..at], v', nodes[n].name, f.name);
    StackOpen(before, nodes[..], v', stack, n, f);
  }

  /** Any other value: a leaf, complete when its text is in place. */
  method LeafMember(buf: array<char>, nodes: array<Node>, n: nat, at: nat,
                    ghost s: string, ghost before: seq<Node>, ghost v: string, ghost stack: seq<Frame>,
                    ghost name: Option<string>)
    returns (r: Option<nat>)
    requires Appended(before, nodes[..], v, stack, n) && nodes[n].sibling == None
    requires Intact(buf, s, at) && at < |s|
    requires EndsBlock(s[at]) || v <= buf[..at]
    requires NameOk(buf[..at], nodes[n].name, name)
    modifies buf, nodes
    ensures r.Some? == ParseLeaf(s, at).Some?
    ensures r.Some? ==>
      var (kind, text, next) := ParseLeaf(s, at).value;
      && r.value == next && Intact(buf, s, next)
      && StackOk(nodes[..], Settled(buf, s, next), WithTop(stack, Top(stack).Add(Leaf(name, kind, text))), n + 1)
  {
    hide StackOk, AddLinks, ParseLeaf, TextAt, LevelOk;
    ghost var w := buf[..at];
    var leaf := ReadLeaf(buf, at, s);
    if leaf.None? {
      return None;
    }
    assert buf[..at] == w;
    ghost var was := nodes[..];
    nodes[n] := nodes[n].(typ := leaf.value.typ, u := Value(leaf.value.at));
    assert nodes[..] == was[n := nodes[n]];
    ghost var (kind, text, next) := ParseLeaf(s, at).value;
    ghost var v' := Settled(buf, s, next);
    StackText(before, v, v', stack, n);
    NameGrows(w, v', nodes[n].name, name);
    StackAddLeaf(before, nodes[..], v', stack, n, Leaf(name, kind, text));
    return Some(leaf.value.next);
  }

  /** Reads the name of the next member and appends node n for it. */
  method BeginMember(buf: array<char>, nodes: array<Node>, obj: nat, n: nat, q: nat,
                     ghost s: string, ghost v: string, ghost stack: seq<Frame>)
    returns (r: Option<nat>)
    requires Intact(buf, s, q) && q < |s|
    requires StackOk(nodes[..], v, stack, n) && n < nodes.Length && obj == Top(stack).node
    requires EndsBlock(s[q]) || v <= buf[..q]
    modifies buf, nodes
    ensures r.Some? == ParseName(s, q, Top(stack).isArray).Some?
    ensures r.Some? ==>
      var (name, at) := ParseName(s, q, Top(stack).isArray).value;
      && r.value == at && Intact(buf, s, at) && (EndsBlock(s[at]) || v <= buf[..at])
      && Appended(old(nodes[..]), nodes[..], v, stack, n)
      && NameOk(buf[..at], nodes[n].name, name) && nodes[n].sibling == None
  {
    ghost var before, start := nodes[..], buf[..q];
    TopFrame(before, v, stack, n);
    hide StackOk, ParseName, AddLinks, NameOk, FrameOk, EndOf, EndsBlock;
    var named := ReadName(buf, q, nodes[obj].typ == ARRAY, s);
    if named.None? {
      return None;
    }
    var (name, at) := named.value;
    assert buf[..q] == start;
    assert EndsBlock(s[q]) ==> at == q by { NotQuoted(s[q]); }
    Attach(nodes, obj, n, name, at);
    return Some(at);
  }

  lemma NotQuoted(c: char)
    ensures EndsBlock(c) ==> c != '\"'
  {
  }

  /** Reading has gone on from q to r: what is left to read is the same, and the open
      containers are linked. */
  ghost predicate GoesOn(buf: array<char>, nodes: array<Node>, s: string, q: nat, r: nat, n: nat,
                         stack: seq<Frame>, stack': seq<Frame>)
    requires CString(s) && n < nodes.Length
    reads buf, nodes
  {
    && q < r <= |s| && Intact(buf, s, r)
    && SameRoot(stack, stack')
    && StackOk(nodes[..], Settled(buf, s, r), stack', n + 1)
    && Resume(s, q, stack, nodes.Length - n) == Resume(s, r, stack', nodes.Length - n - 1)
  }

  /** Node n has been appended for the member that starts at q, and its value is at `at`. */
  ghost predicate Begun(buf: array<char>, nodes: array<Node>, obj: nat, n: nat, at: nat, s: string, q: nat,
                        before: seq<Node>, v: string, stack: seq<Frame>, name: Option<string>)
    reads buf, nodes
  {
    && Appended(before, nodes[..], v, stack, n) && nodes[n].sibling == None && obj == Top(stack).node
    && Intact(buf, s, at) && q <= at < |s| && (EndsBlock(s[at]) || v <= buf[..at])
    && NameOk(buf[..at], nodes[n].name, name)
    && GoBlank(s, q) == Some(q) && s[q] != ',' && s[q] != CloserOf(Top(stack).isArray)
    && ParseName(s, q, Top(stack).isArray) == Some((name, at))
  }

  /** What the text says of a member that starts at q and whose value is at `at`. */
  ghost predicate MemberText(s: string, q: nat, at: nat, stack: seq<Frame>, name: Option<string>) {
    && stack != [] && CString(s) && q <= at < |s|
    && GoBlank(s, q) == Some(q) && s[q] != ',' && s[q] != CloserOf(Top(stack).isArray)
    && ParseName(s, q, Top(stack).isArray) == Some((name, at))
  }

  method OpenValue(buf: array<char>, nodes: array<Node>, obj: nat, n: nat, at: nat,
                   ghost s: string, ghost q: nat, ghost before: seq<Node>, ghost v: string,
                   ghost stack: seq<Frame>, ghost name: Option<string>)
    returns (ghost stack': seq<Frame>)
    requires Begun(buf, nodes, obj, n, at, s, q, before, v, stack, name) && (s[at] == '{' || s[at] == '[')
    modifies nodes
    ensures GoesOn(buf, nodes, s, q, at + 1, n, stack, stack') && n == Top(stack').node
  {
    assert MemberText(s, q, at, stack, name) && n < nodes.Length;
    assert !EndsBlock(s[at]);
    hide StackOk, AddLinks, NameOk, Settled, Appended, GoesOn, MemberText, Intact;
    ghost var f := Frame(n, name, s[at] == '[', []);
    OpenMember(buf, nodes, obj, n, at, s, before, v, stack, f);
    stack' := stack + [f];
    OpenGoesOn(buf, nodes, s, q, at, n, stack, name);
  }

  lemma OpenGoesOn(buf: array<char>, nodes: array<Node>, s: string, q: nat, at: nat, n: nat, stack: seq<Frame>,
                   name: Option<string>)
    requires MemberText(s, q, at, stack, name) && (s[at] == '{' || s[at] == '[')
    requires n < nodes.Length && Intact(buf, s, at)
    requires StackOk(nodes[..], Settled(buf, s, at + 1), stack + [Frame(n, name, s[at] == '[', [])], n + 1)
    ensures var stack' := stack + [Frame(n, name, s[at] == '[', [])];
            GoesOn(buf, nodes, s, q, at + 1, n, stack, stack') && n == Top(stack').node
  {
    hide StackOk, Resume, ParseName, GoBlank, Settled;
    ResumeOpen(s, q, stack, nodes.Length - n, q, name, at, n);
  }

  method PlainValue(buf: array<char>, nodes: array<Node>, obj: nat, n: nat, at: nat,
                    ghost s: string, ghost q: nat, ghost before: seq<Node>, ghost v: string,
                    ghost stack: seq<Frame>, ghost name: Option<string>)
    returns (r: Option<nat>, ghost stack': seq<Frame>)
    requires Begun(buf, nodes, obj, n, at, s, q, before, v, stack, name) && s[at] != '{' && s[at] != '['
    modifies buf, nodes
    ensures r.None? ==> Resume(s, q, stack, nodes.Length - n).None?
    ensures r.Some? ==> GoesOn(buf, nodes, s, q, r.value, n, stack, stack') && obj == Top(stack').node
  {
    assert MemberText(s, q, at, stack, name) && n < nodes.Length;
    hide StackOk, Resume, ParseLeaf, AddLinks, NameOk, Settled, WithTop, Appended;
    hide GoesOn, MemberText, Intact, EndsBlock;
    LeafResumes(s, q, at, stack, name, nodes.Length - n);
    r := LeafMember(buf, nodes, n, at, s, before, v, stack, name);
    stack' := stack;
    if r.Some? {
      stack' := WithLeaf(s, at, stack, name);
      LeafGoesOn(buf, nodes, s, q, at, r.value, n, stack, name);
    }
  }

  /** The open containers after a leaf has been added to the innermost. */
  ghost function WithLeaf(s: string, at: nat, stack: seq<Frame>, name: Option<string>): seq<Frame>
    requires CString(s) && at < |s| && ParseLeaf(s, at).Some? && stack != []
  {
    var (kind, text, next) := ParseLeaf(s, at).value;
    WithTop(stack, Top(stack).Add(Leaf(name, kind, text)))
  }

  lemma LeafResumes(s: string, q: nat, at: nat, stack: seq<Frame>, name: Option<string>, free: nat)
    requires MemberText(s, q, at, stack, name) && s[at] != '{' && s[at] != '[' && free > 0
    ensures ParseLeaf(s, at).None? ==> Resume(s, q, stack, free).None?
    ensures ParseLeaf(s, at).Some? ==>
      && WithLeaf(s, at, stack, name) != []
      && Resume(s, q, stack, free) == Resume(s, ParseLeaf(s, at).value.2, WithLeaf(s, at, stack, name), free - 1)
  {
    hide Resume, ParseName, ParseLeaf, GoBlank;
    ResumeLeaf(s, q, stack, free, q, name, at);
  }

  lemma LeafGoesOn(buf: array<char>, nodes: array<Node>, s: string, q: nat, at: nat, next: nat, n: nat,
                   stack: seq<Frame>, name: Option<string>)
    requires MemberText(s, q, at, stack, name) && s[at] != '{' && s[at] != '[' && n < nodes.Length
    requires ParseLeaf(s, at).Some? && next == ParseLeaf(s, at).value.2 && Intact(buf, s, next)
    requires StackOk(nodes[..], Settled(buf, s, next), WithLeaf(s, at, stack, name), n + 1)
    ensures var stack' := WithLeaf(s, at, stack, name);
            stack' != [] && GoesOn(buf, nodes, s, q, next, n, stack, stack') && Top(stack').node == Top(stack).node
  {
    hide StackOk, Resume, ParseName, ParseLeaf, GoBlank, Settled, Intact;
    LeafResumes(s, q, at, stack, name, nodes.Length - n);
  }

  /** Reads the value at `at` of the member that starts at q. */
  method ReadValue(buf: array<char>, nodes: array<Node>, obj: nat, n: nat, at: nat,
                   ghost s: string, ghost q: nat, ghost before: seq<Node>, ghost v: string,
                   ghost stack: seq<Frame>, ghost name: Option<string>)
    returns (r: Option<nat>, obj': nat, ghost stack': seq<Frame>)
    requires Begun(buf, nodes, obj, n, at, s, q, before, v, stack, name)
    modifies buf, nodes
    ensures r.None? ==> Resume(s, q, stack, nodes.Length - n).None?
    ensures r.Some? ==> GoesOn(buf, nodes, s, q, r.value, n, stack, stack') && obj' == Top(stack').node
  {
    assert stack != [] && CString(s) && n < nodes.Length && buf[at] == s[at];
    hide StackOk, Resume, AddLinks, NameOk, Appended, GoesOn, Begun, Intact, CString;
    if buf[at] == '{' || buf[at] == '[' {
      stack' := OpenValue(buf, nodes, obj, n, at, s, q, before, v, stack, name);
      r, obj' := Some(at + 1), n;
    } else {
      obj' := obj;
      r, stack' := PlainValue(buf, nodes, obj, n, at, s, q, before, v, stack, name);
    }
  }

  /** Reads one member of the innermost container, from its name or value at q
      to where the loop goes on. The next free node is n. */
  method ReadMember(buf: array<char>, nodes: array<Node>, obj: nat, n: nat, q: nat,
                    ghost s: string, ghost v: string, ghost stack: seq<Frame>)
    returns (r: Option<nat>, obj': nat, ghost stack': seq<Frame>)
    requires Intact(buf, s, q) && q < |s| && GoBlank(s, q) == Some(q)
    requires StackOk(nodes[..], v, stack, n) && n < nodes.Length && obj == Top(stack).node
    requires EndsBlock(s[q]) || v <= buf[..q]
    requires s[q] != ',' && s[q] != CloserOf(Top(stack).isArray)
    modifies buf, nodes
    ensures r.None? ==> Resume(s, q, stack, nodes.Length - n).None?
    ensures r.Some? ==> GoesOn(buf, nodes, s, q, r.value, n, stack, stack') && obj' == Top(stack').node
  {
    assert stack != [];
    hide StackOk, Resume, ParseLeaf, ParseName, Members, AddLinks, NameOk, GoBlank, Settled, GoesOn, EndsBlock;
    ghost var before := nodes[..];
    var begun := BeginMember(buf, nodes, obj, n, q, s, v, stack);
    if begun.None? {
      ResumeFails(s, q, stack, nodes.Length - n, q);
      return None, obj, stack;
    }
    ghost var name := ParseName(s, q, Top(stack).isArray).value.0;
    r, obj', stack' := ReadValue(buf, nodes, obj, n, begun.value, s, q, before, v, stack, name);
  }

  // ----- the loop

  /** What the grammar says about the object that starts at p. */
  function ParseObject(s: string, p: nat, qty: nat): Option<(seq<Json>, nat, nat)>
    requires CString(s) && qty > 0
  {
    Members(s, p + 1, false, [], qty - 1)
  }

  /** Only blanks lie between p and q; none of them closes a block. */
  lemma BlanksSettled(buf: array<char>, s: string, p: nat, q: nat)
    requires p <= |s| < buf.Length && GoBlank(s, p) == Some(q)
    ensures if EndsBlock(At(s, p)) then q == p else Settled(buf, s, p) <= buf[..q]
    ensures Settled(buf, s, p) <= buf[..q] + [NUL]
  {
  }

  lemma StartResume(s: string, p: nat, qty: nat)
    requires CString(s) && qty > 0
    ensures Resume(s, p + 1, [Frame(0, None, false, [])], qty - 1) == ParseObject(s, p, qty)
  {
    hide Members;
  }

  lemma StartStack(nodes: seq<Node>, v: string, f: Frame)
    requires nodes != [] && f == Frame(0, None, false, [])
    requires nodes[0].name == None && nodes[0].typ == OBJ && nodes[0].u == Kids(None, 0) && nodes[0].sibling == None
    ensures StackOk(nodes, v, [f], 1)
  {
    NoKids(nodes, nodes, v, 1);
    assert FrameOk(nodes, v, f, None);
  }

  /** When the root is closed, the pool holds the image of the whole tree. */
  lemma Finished(nodes: seq<Node>, v: string, stack: seq<Frame>, n: nat)
    requires StackOk(nodes, v, stack, n) && |stack| == 1 && !stack[0].isArray && stack[0].name == None
    ensures Shape(nodes, v, 0, Container(None, false, stack[0].kids))
    ensures nodes[0].sibling == None && n == Size(Container(None, false, stack[0].kids))
  {
    TopFrame(nodes, v, stack, n);
    ContainerComplete(nodes, nodes, v, stack[0]);
  }

  /** Ends the innermost container at its closing bracket and goes back to the
      one around it, which its `sibling` link names; none when it is the root. */
  method CloseBlock(buf: array<char>, nodes: array<Node>, obj: nat, q: nat,
                    ghost s: string, ghost v: string, ghost stack: seq<Frame>, ghost n: nat)
    returns (parent: Option<nat>)
    requires StackOk(nodes[..], v, stack, n) && obj == Top(stack).node < nodes.Length
    requires Intact(buf, s, q) && q < |s| && v <= buf[..q] + [NUL]
    modifies buf, nodes
    ensures Intact(buf, s, q + 1)
    ensures parent.None? <==> |stack| == 1
    ensures |stack| == 1 ==> StackOk(nodes[..], buf[..q + 1], stack, n)
    ensures |stack| > 1 ==>
      && StackOk(nodes[..], Settled(buf, s, q + 1), Close(stack, Top(stack).kids), n)
      && parent.value == Top(Close(stack, Top(stack).kids)).node
  {
    TopFrame(nodes[..], v, stack, n);
    hide StackOk, FrameOk, EndOf;
    ghost var w := buf[..q];
    buf[q] := NUL;
    assert buf[..q + 1] == w + [NUL];
    parent := nodes[obj].sibling;
    if parent.None? {
      StackText(nodes[..], v, buf[..q + 1], stack, n);
      return;
    }
    GrowTo(buf, nodes, s, q + 1, v, stack, n);
    CloseInner(nodes, obj, Settled(buf, s, q + 1), stack, n);
  }

  /** What one turn of the loop does. */
  datatype Turn = Goes | Stops | Fails

  /** The state of the loop: text from ptr on untouched, open containers linked. */
  ghost predicate Running(buf: array<char>, nodes: array<Node>, s: string, ptr: nat, obj: nat,
                          stack: seq<Frame>, n: nat)
    reads buf, nodes
  {
    && ptr <= |s| && Intact(buf, s, ptr) && 0 < n <= nodes.Length
    && StackOk(nodes[..], Settled(buf, s, ptr), stack, n)
    && SameRoot([Frame(0, None, false, [])], stack) && obj == Top(stack).node
  }

  /** One turn: skips blanks, then a comma, a closing bracket or a member. */
  method Turns(buf: array<char>, nodes: array<Node>, ptr: nat, obj: nat, n: nat,
               ghost s: string, ghost stack: seq<Frame>)
    returns (t: Turn, ptr': nat, obj': nat, n': nat, ghost stack': seq<Frame>)
    requires Running(buf, nodes, s, ptr, obj, stack, n)
    modifies buf, nodes
    ensures t.Fails? ==> Resume(s, ptr, stack, nodes.Length - n).None?
    ensures t.Goes? ==>
      && ptr < ptr' && Running(buf, nodes, s, ptr', obj', stack', n')
      && Resume(s, ptr, stack, nodes.Length - n) == Resume(s, ptr', stack', nodes.Length - n')
    ensures t.Stops? ==>
      && ptr' <= |s| && Intact(buf, s, ptr') && n' == n <= nodes.Length
      && Resume(s, ptr, stack, nodes.Length - n) == Some((stack[0].kids, ptr', nodes.Length - n))
      && Shape(nodes[..], buf[..ptr'], 0, Container(None, false, stack[0].kids))
      && nodes[0].sibling == None && n == Size(Container(None, false, stack[0].kids))
  {
    hide StackOk, Resume, Members, GoBlank, FrameOk, EndOf, Shape, Size, Settled, ContainerType;
    t, ptr', obj', n', stack' := Fails, ptr, obj, n, stack;
    ghost var v, free := Settled(buf, s, ptr), nodes.Length - n;
    var b := SkipBlanks(buf, ptr, s);
    if b.None? {
      ResumeEnds(s, ptr, stack, free);
      return;
    }
    var q := b.value;
    BlanksSettled(buf, s, ptr, q);
    if buf[q] == ',' {
      ResumeComma(s, ptr, stack, free, q);
      GrowTo(buf, nodes, s, q + 1, v, stack, n);
      t, ptr' := Goes, q + 1;
      return;
    }
    TopFrame(nodes[..], v, stack, n);
    CloserOfType(Top(stack).isArray);
    var endChar := if nodes[obj].typ == OBJ then '}' else ']';
    if buf[q] == endChar {
      var parent := CloseBlock(buf, nodes, obj, q, s, v, stack, n);
      ptr' := q + 1;
      if parent.None? {
        ResumeDone(s, ptr, stack, free, q);
        Finished(nodes[..], buf[..q + 1], stack, n);
        t := Stops;
        return;
      }
      ResumeClose(s, ptr, stack, free, q);
      t, obj', stack' := Goes, parent.value, Close(stack, Top(stack).kids);
      return;
    }
    if n >= nodes.Length {
      ResumeFails(s, ptr, stack, free, q);
      return;
    }
    ResumeSkips(s, ptr, stack, free, q);
    var next;
    next, obj', stack' := ReadMember(buf, nodes, obj, n, q, s, v, stack);
    if next.Some? {
      t, ptr', n' := Goes, next.value, n + 1;
    }
  }

  /** Parses the object at `start` with the nodes of the pool, the root first.
      It succeeds exactly when the recursive-descent reading does and stops at
      the same place; then the pool holds the image of the tree read, every list
      of members ends in null, and the root has no sibling. */
  method ObjValue(buf: array<char>, nodes: array<Node>, start: nat, ghost s: string)
    returns (r: Option<nat>, nextFree: nat)
    requires Intact(buf, s, start) && start < |s| && nodes.Length > 0 && nodes[0].name == None
    modifies buf, nodes
    ensures r == (var m := ParseObject(s, start, nodes.Length); if m.Some? then Some(m.value.1) else None)
    ensures r.Some? ==>
      var root := Container(None, false, ParseObject(s, start, nodes.Length).value.0);
      && r.value <= |s| && Intact(buf, s, r.value) && Shape(nodes[..], buf[..r.value], 0, root)
      && nodes[0].sibling == None
      && nextFree == Size(root) == nodes.Length - ParseObject(s, start, nodes.Length).value.2
  {
    nodes[0] := nodes[0].(typ := OBJ, u := Kids(None, 0), sibling := None);
    var obj, ptr := 0, start + 1;
    nextFree := 1;
    ghost var spec := ParseObject(s, start, nodes.Length);
    ghost var stack := [Frame(0, None, false, [])];
    StartStack(nodes[..], Settled(buf, s, ptr), stack[0]);
    StartResume(s, start, nodes.Length);
    hide StackOk, Resume, Members, Shape, Size, ParseObject, Settled;
    while true
      invariant Running(buf, nodes, s, ptr, obj, stack, nextFree)
      invariant Resume(s, ptr, stack, nodes.Length - nextFree) == spec
      decreases |s| - ptr
    {
      var t;
      ghost var was := stack;
      t, ptr, obj, nextFree, stack := Turns(buf, nodes, ptr, obj, nextFree, s, stack);
      if t.Fails? {
        return None, nextFree;
      }
      if t.Stops? {
        return Some(ptr), nextFree;
      }
    }
  }

  /** The entry point: the text must start, after blanks, with an object. */
  method JsonCreate(buf: array<char>, nodes: array<Node>, ghost s: string) returns (r: Option<nat>)
    requires Intact(buf, s, 0) && nodes.Length > 0
    modifies buf, nodes
    ensures r.Some? == ParseDocument(s, nodes.Length).Some?
    ensures r.Some? ==>
      var root := ParseDocument(s, nodes.Length).value;
      && r.value == 0 && nodes[0].sibling == None
      && exists end :: 0 <= end <= |s| && Shape(nodes[..], buf[..end], 0, root)
  {
    hide Members, Shape, Size;
    var p := SkipBlanks(buf, 0, s);
    if p.None? || buf[p.value] != '{' {
      return None;
    }
    nodes[0] := nodes[0].(name := None, sibling := None, u := Kids(None, 0));
    var end, used := ObjValue(buf, nodes, p.value, s);
    if end.None? {
      return None;
    }
    return Some(0);
  }

  /** The tree a text denotes, given a pool of `qty` nodes. */
  function ParseDocument(s: string, qty: nat): Option<Json>
    requires CString(s) && qty > 0
  {
    var p := GoBlank(s, 0);
    if p.None? || s[p.value] != '{' then None else
    var m := ParseObject(s, p.value, qty);
    if m.None? then None else Some(Container(None, false, m.value.0))
  }

  lemma CloserOfType(isArray: bool)
    ensures CloserOf(isArray) == if ContainerType(isArray) == OBJ then '}' else ']'
  {
  }

  /** The open containers, once more text is settled. */
  lemma GrowTo(buf: array<char>, nodes: array<Node>, s: string, p: nat, v: string, stack: seq<Frame>, n: nat)
    requires p <= buf.Length && v <= buf[..p] && StackOk(nodes[..], v, stack, n)
    ensures StackOk(nodes[..], Settled(buf, s, p), stack, n)
  {
    hide StackOk;
    StackText(nodes[..], v, Settled(buf, s, p), stack, n);
  }

  /** Clears the parent link of the innermost container. */
  method CloseInner(nodes: array<Node>, obj: nat, ghost v: string, ghost stack: seq<Frame>, ghost n: nat)
    requires StackOk(nodes[..], v, stack, n) && |stack| > 1 && obj == Top(stack).node < nodes.Length
    modifies nodes
    ensures StackOk(nodes[..], v, Close(stack, Top(stack).kids), n)
  {
    hide StackOk;
    ghost var was := nodes[..];
    StackClose(was, v, stack, n);
    nodes[obj] := nodes[obj].(sibling := None);
    assert nodes[..] == was[obj := was[obj].(sibling := None)];
  }
}
