/** The node pool: nodes linked by index, the image of a tree in the pool, and
    what the parser's link updates do to it. While a container is open its
    `sibling` link points to its parent. */
module JsonPool {
  import opened Options
  import opened JsonText
  import opened JsonTree

  datatype NodeType = OBJ | ARRAY | TEXT | BOOLEAN | INTEGER | REAL | NULL

  /** What the union of a node holds: where its text is, or its members. */
  datatype Payload = Value(at: nat) | Kids(child: Option<nat>, last: nat)

  datatype Node = Node(sibling: Option<nat>, name: Option<nat>, u: Payload, typ: NodeType)

  function TypeOf(k: LeafKind): NodeType {
    match k
    case Text => TEXT
    case Boolean => BOOLEAN
    case Integer => INTEGER
    case Real => REAL
    case Null => NULL
  }

  function ContainerType(isArray: bool): NodeType { if isArray then ARRAY else OBJ }

  // ----- the image of a tree: nodes in the order the text opens them

  function Size(j: Json): (n: nat)
    ensures n > 0
    decreases j, 1
  {
    match j
    case Leaf(_, _, _) => 1
    case Container(_, _, kids) => 1 + SizeAll(kids)
  }

  function SizeAll(kids: seq<Json>): nat
    decreases kids, 0
  {
    if kids == [] then 0 else Size(kids[0]) + SizeAll(kids[1..])
  }

  ghost predicate NameOk(v: string, at: Option<nat>, name: Option<string>) {
    if name.None? then at.None? else at.Some? && TextAt(v, at.value, name.value)
  }

  /** Node i and the ones after it are the image of j: its own fields, its
      members as a linked list in order, and NUL-terminated text for every name
      and value. */
  ghost predicate Shape(nodes: seq<Node>, v: string, i: nat, j: Json)
    decreases j, 1
  {
    && i + Size(j) <= |nodes|
    && NameOk(v, nodes[i].name, j.name)
    && match j
       case Leaf(_, kind, text) =>
         nodes[i].typ == TypeOf(kind) && nodes[i].u.Value? && TextAt(v, nodes[i].u.at, text)
       case Container(_, isArray, kids) =>
         && nodes[i].typ == ContainerType(isArray) && nodes[i].u.Kids?
         && nodes[i].u.child == (if kids == [] then None else Some(i + 1))
         && Segment(nodes, v, i + 1, kids, None)
  }

  /** The images of `kids`, one after the other from `lo`, each linked to the
      next and the last one to `end`. */
  ghost predicate Segment(nodes: seq<Node>, v: string, lo: nat, kids: seq<Json>, end: Option<nat>)
    decreases kids, 0
  {
    kids == [] ||
    (&& Shape(nodes, v, lo, kids[0])
     && nodes[lo].sibling == (if |kids| == 1 then end else Some(lo + Size(kids[0])))
     && Segment(nodes, v, lo + Size(kids[0]), kids[1..], end))
  }

  /** Position of the last member's node. */
  function LastPos(lo: nat, kids: seq<Json>): nat
    requires kids != []
  {
    lo + SizeAll(kids[..|kids| - 1])
  }

  lemma {:induction false} SizeAllSnoc(kids: seq<Json>, j: Json)
    ensures SizeAll(kids + [j]) == SizeAll(kids) + Size(j)
    decreases |kids|
  {
    if kids == [] {
      assert kids + [j] == [j] && [j][1..] == [];
    } else {
      assert (kids + [j])[1..] == kids[1..] + [j];
      SizeAllSnoc(kids[1..], j);
    }
  }

  // ----- framing

  /** The two pools agree on [lo, hi). */
  ghost predicate SameOn(nodes: seq<Node>, nodes': seq<Node>, lo: nat, hi: nat) {
    |nodes| == |nodes'| && forall k :: lo <= k < hi && k < |nodes| ==> nodes'[k] == nodes[k]
  }

  lemma TextGrows(v: string, v': string, at: nat, text: string)
    requires v <= v' && TextAt(v, at, text)
    ensures TextAt(v', at, text)
  {
  }

  /** An image is kept by changes outside its nodes, by a new `sibling` of its
      root, and by more text. */
  lemma {:induction false} ShapeFrame(nodes: seq<Node>, nodes': seq<Node>, v: string, v': string, i: nat, j: Json)
    requires Shape(nodes, v, i, j) && v <= v'
    requires |nodes| == |nodes'| && SameOn(nodes, nodes', i + 1, i + Size(j))
    requires nodes'[i] == nodes[i].(sibling := nodes'[i].sibling)
    ensures Shape(nodes', v', i, j)
    decreases j, 1
  {
    if j.name.Some? { TextGrows(v, v', nodes[i].name.value, j.name.value); }
    match j
    case Leaf(_, _, text) => TextGrows(v, v', nodes[i].u.at, text);
    case Container(_, _, kids) => SegmentFrame(nodes, nodes', v, v', i + 1, kids, None);
  }

  lemma {:induction false} SegmentFrame(nodes: seq<Node>, nodes': seq<Node>, v: string, v': string,
                                        lo: nat, kids: seq<Json>, end: Option<nat>)
    requires Segment(nodes, v, lo, kids, end) && v <= v'
    requires |nodes| == |nodes'| && SameOn(nodes, nodes', lo, lo + SizeAll(kids))
    ensures Segment(nodes', v', lo, kids, end)
    decreases kids, 0
  {
    if kids != [] {
      ShapeFrame(nodes, nodes', v, v', lo, kids[0]);
      SegmentFrame(nodes, nodes', v, v', lo + Size(kids[0]), kids[1..], end);
    }
  }

  lemma {:induction false} SegmentInside(nodes: seq<Node>, v: string, lo: nat, kids: seq<Json>, end: Option<nat>)
    requires Segment(nodes, v, lo, kids, end) && kids != []
    ensures lo + SizeAll(kids) <= |nodes|
    decreases |kids|
  {
    if |kids| > 1 {
      SegmentInside(nodes, v, lo + Size(kids[0]), kids[1..], end);
    } else {
      assert kids[1..] == [];
    }
  }

  /** Relinking the last member of a list changes what the list ends with. */
  lemma {:induction false} SegmentRelink(nodes: seq<Node>, v: string, lo: nat, kids: seq<Json>,
                                         end: Option<nat>, end': Option<nat>)
    requires Segment(nodes, v, lo, kids, end) && kids != []
    ensures LastPos(lo, kids) < lo + SizeAll(kids) <= |nodes|
    ensures var last := LastPos(lo, kids);
            Segment(nodes[last := nodes[last].(sibling := end')], v, lo, kids, end')
    decreases |kids|
  {
    SegmentInside(nodes, v, lo, kids, end);
    if |kids| == 1 {
      assert kids[..0] == [] && kids[1..] == [];
      ShapeFrame(nodes, nodes[lo := nodes[lo].(sibling := end')], v, v, lo, kids[0]);
    } else {
      var lo1 := lo + Size(kids[0]);
      SegmentRelink(nodes, v, lo1, kids[1..], end, end');
      assert kids[1..][..|kids| - 2] == kids[..|kids| - 1][1..];
      assert kids[..|kids| - 1][0] == kids[0];
      var last := LastPos(lo, kids);
      assert last == LastPos(lo1, kids[1..]) && last >= lo1;
      ShapeFrame(nodes, nodes[last := nodes[last].(sibling := end')], v, v, lo, kids[0]);
    }
  }

  /** A list that ends with a link to one more member, and that member. */
  lemma {:induction false} SegmentSnoc(nodes: seq<Node>, v: string, lo: nat, kids: seq<Json>, j: Json, end: Option<nat>)
    requires Segment(nodes, v, lo, kids, Some(lo + SizeAll(kids)))
    requires Shape(nodes, v, lo + SizeAll(kids), j) && nodes[lo + SizeAll(kids)].sibling == end
    ensures Segment(nodes, v, lo, kids + [j], end)
    decreases |kids|
  {
    if kids == [] {
      assert kids + [j] == [j] && [j][1..] == [];
    } else {
      assert (kids + [j])[1..] == kids[1..] + [j];
      if |kids| == 1 { assert kids[1..] == []; }
      SegmentSnoc(nodes, v, lo + Size(kids[0]), kids[1..], j, end);
    }
  }

  // ----- open containers

  function Top(stack: seq<Frame>): Frame
    requires stack != []
  {
    stack[|stack| - 1]
  }

  /** The node after everything below and including this frame's closed members. */
  function EndOf(f: Frame): nat { f.node + 1 + SizeAll(f.kids) }

  /** An open container: its closed members are a linked list, and when one of
      its members is itself open, the list ends there. */
  ghost predicate FrameOk(nodes: seq<Node>, v: string, f: Frame, next: Option<nat>) {
    && EndOf(f) <= |nodes|
    && NameOk(v, nodes[f.node].name, f.name)
    && nodes[f.node].typ == ContainerType(f.isArray) && nodes[f.node].u.Kids?
    && nodes[f.node].u.child == (if f.kids == [] && next.None? then None else Some(f.node + 1))
    && (next.Some? ==> next.value == EndOf(f) < |nodes| && nodes[f.node].u.last == next.value)
    && (next.None? && f.kids != [] ==> nodes[f.node].u.last == LastPos(f.node + 1, f.kids))
    && Segment(nodes, v, f.node + 1, f.kids, next)
  }

  ghost function OpenChild(stack: seq<Frame>, d: nat): Option<nat>
    requires d < |stack|
  {
    if d + 1 < |stack| then Some(stack[d + 1].node) else None
  }

  /** The open container at depth d, linked by `sibling` to the one around it. */
  ghost predicate LevelOk(nodes: seq<Node>, v: string, stack: seq<Frame>, d: nat)
    requires d < |stack|
  {
    && FrameOk(nodes, v, stack[d], OpenChild(stack, d))
    && nodes[stack[d].node].sibling == if d == 0 then None else Some(stack[d - 1].node)
  }

  /** The open containers, outermost first. Following `sibling` from the
      innermost spells its ancestors up to the root, whose `sibling` is null. */
  ghost predicate StackOk(nodes: seq<Node>, v: string, stack: seq<Frame>, nextFree: nat) {
    && stack != [] && stack[0].node == 0
    && (forall d :: 0 <= d < |stack| ==> LevelOk(nodes, v, stack, d))
    && nextFree == EndOf(Top(stack))
  }

  lemma {:induction false} StackAscends(nodes: seq<Node>, v: string, stack: seq<Frame>, nextFree: nat, c: nat, d: nat)
    requires StackOk(nodes, v, stack, nextFree) && c < d < |stack|
    ensures stack[c].node < stack[d].node
    decreases d
  {
    hide FrameOk;
    assert LevelOk(nodes, v, stack, d - 1);
    FrameBounds(nodes, v, stack[d - 1], OpenChild(stack, d - 1));
    if c < d - 1 { StackAscends(nodes, v, stack, nextFree, c, d - 1); }
  }

  lemma NameGrows(v: string, v': string, at: Option<nat>, name: Option<string>)
    requires v <= v' && NameOk(v, at, name)
    ensures NameOk(v', at, name)
  {
    if name.Some? { TextGrows(v, v', at.value, name.value); }
  }

  /** A frame is kept by more text and by changes to nodes from its open member
      on. */
  lemma FrameKeeps(nodes: seq<Node>, nodes': seq<Node>, v: string, v': string, f: Frame, next: Option<nat>)
    requires FrameOk(nodes, v, f, next) && v <= v' && |nodes| == |nodes'|
    requires SameOn(nodes, nodes', f.node + 1, EndOf(f))
    requires nodes'[f.node] == nodes[f.node].(sibling := nodes'[f.node].sibling)
    ensures FrameOk(nodes', v', f, next)
  {
    hide Segment, Size, SizeAll, TextAt;
    NameGrows(v, v', nodes[f.node].name, f.name);
    SegmentFrame(nodes, nodes', v, v', f.node + 1, f.kids, next);
  }

  lemma FrameBounds(nodes: seq<Node>, v: string, f: Frame, next: Option<nat>)
    requires FrameOk(nodes, v, f, next)
    ensures f.node < EndOf(f) <= |nodes| && (next.Some? ==> next.value == EndOf(f))
  {
    hide Segment, Size, SizeAll, TextAt, NameOk;
  }

  /** An outer frame lies before the innermost container's node. */
  lemma OuterBelow(nodes: seq<Node>, v: string, stack: seq<Frame>, nextFree: nat, d: nat)
    requires StackOk(nodes, v, stack, nextFree) && d + 1 < |stack|
    ensures FrameOk(nodes, v, stack[d], OpenChild(stack, d))
    ensures stack[d].node < EndOf(stack[d]) <= Top(stack).node < |nodes|
  {
    hide FrameOk, EndOf, SizeAll;
    assert LevelOk(nodes, v, stack, d) && LevelOk(nodes, v, stack, |stack| - 1);
    FrameBounds(nodes, v, stack[d], OpenChild(stack, d));
    FrameBounds(nodes, v, Top(stack), None);
    if d + 1 < |stack| - 1 { StackAscends(nodes, v, stack, nextFree, d + 1, |stack| - 1); }
  }

  /** All levels but the innermost are kept by changes from the innermost
      container's node on, whatever becomes of the innermost. */
  lemma OuterKeep(nodes: seq<Node>, nodes': seq<Node>, v: string, stack: seq<Frame>, nextFree: nat, d: nat)
    requires StackOk(nodes, v, stack, nextFree) && d + 1 < |stack|
    requires SameOn(nodes, nodes', 0, Top(stack).node)
    ensures LevelOk(nodes', v, stack, d)
  {
    OuterBelow(nodes, v, stack, nextFree, d);
    assert LevelOk(nodes, v, stack, d);
    hide StackOk, FrameOk;
    FrameKeeps(nodes, nodes', v, v, stack[d], OpenChild(stack, d));
  }

  /** The same level in a stack that agrees around it. */
  lemma LevelMoves(nodes: seq<Node>, v: string, stack: seq<Frame>, stack': seq<Frame>, d: nat)
    requires d + 1 < |stack| && d + 1 < |stack'| && LevelOk(nodes, v, stack, d)
    requires stack'[d] == stack[d] && stack'[d + 1].node == stack[d + 1].node
    requires d > 0 ==> stack'[d - 1].node == stack[d - 1].node
    ensures LevelOk(nodes, v, stack', d)
  {
    hide FrameOk;
  }

  lemma StackText(nodes: seq<Node>, v: string, v': string, stack: seq<Frame>, nextFree: nat)
    requires StackOk(nodes, v, stack, nextFree) && v <= v'
    ensures StackOk(nodes, v', stack, nextFree)
  {
    hide FrameOk, EndOf;
    forall d | 0 <= d < |stack| ensures LevelOk(nodes, v', stack, d) {
      assert LevelOk(nodes, v, stack, d);
      FrameGrows(nodes, v, v', stack[d], OpenChild(stack, d));
    }
  }

  lemma FrameGrows(nodes: seq<Node>, v: string, v': string, f: Frame, next: Option<nat>)
    requires FrameOk(nodes, v, f, next) && v <= v'
    ensures FrameOk(nodes, v', f, next)
  {
    hide Segment, SizeAll, NameOk;
    FrameKeeps(nodes, nodes, v, v', f, next);
  }

  // ----- adding a member

  /** Appends node n to the members of obj. */
  function AddLinks(nodes: seq<Node>, obj: nat, n: nat): (r: seq<Node>)
    requires obj < |nodes| && n < |nodes| && nodes[obj].u.Kids?
    requires nodes[obj].u.child.Some? ==> nodes[obj].u.last < |nodes|
    ensures |r| == |nodes|
  {
    var cleared := nodes[n := nodes[n].(sibling := None)];
    if nodes[obj].u.child.None? then cleared[obj := cleared[obj].(u := Kids(Some(n), n))]
    else
      var last := nodes[obj].u.last;
      var linked := cleared[last := cleared[last].(sibling := Some(n))];
      linked[obj := linked[obj].(u := Kids(nodes[obj].u.child, n))]
  }

  /** What the appended node itself held before does not matter. */
  lemma AddLinksFresh(nodes: seq<Node>, obj: nat, n: nat, x: Node, y: Node)
    requires obj < n < |nodes| && nodes[obj].u.Kids?
    requires nodes[obj].u.child.Some? ==> nodes[obj].u.last < n
    ensures AddLinks(nodes[n := x], obj, n)[n := y] == AddLinks(nodes, obj, n)[n := y]
  {
  }

  /** Appending a node to a container opens its next member. */
  lemma AddOpens(nodes: seq<Node>, v: string, f: Frame, n: nat)
    requires FrameOk(nodes, v, f, None) && n == EndOf(f) < |nodes|
    ensures nodes[f.node].u.Kids? && (nodes[f.node].u.child.Some? ==> nodes[f.node].u.last < |nodes|)
    ensures FrameOk(AddLinks(nodes, f.node, n), v, f, Some(n))
    ensures SameOn(nodes, AddLinks(nodes, f.node, n), 0, f.node)
    ensures AddLinks(nodes, f.node, n)[f.node].sibling == nodes[f.node].sibling
  {
    hide Size, SizeAll, TextAt, NameOk, Segment, Shape;
    if f.kids == [] {
      NoKids(nodes, AddLinks(nodes, f.node, n), v, f.node + 1);
    } else {
      LastInside(f.kids);
      SegmentRelink(nodes, v, f.node + 1, f.kids, None, Some(n));
      var last := LastPos(f.node + 1, f.kids);
      var relinked := nodes[last := nodes[last].(sibling := Some(n))];
      SegmentFrame(relinked, AddLinks(nodes, f.node, n), v, v, f.node + 1, f.kids, Some(n));
    }
  }

  lemma NoKids(nodes: seq<Node>, nodes': seq<Node>, v: string, lo: nat)
    ensures SizeAll([]) == 0 && forall end :: Segment(nodes', v, lo, [], end)
  {
  }

  lemma LastInside(kids: seq<Json>)
    requires kids != []
    ensures SizeAll(kids[..|kids| - 1]) < SizeAll(kids)
  {
    assert kids == kids[..|kids| - 1] + [kids[|kids| - 1]];
    SizeAllSnoc(kids[..|kids| - 1], kids[|kids| - 1]);
  }

  /** An open member whose image is complete and whose link is null is closed. */
  lemma MemberCloses(nodes: seq<Node>, v: string, f: Frame, n: nat, j: Json)
    requires FrameOk(nodes, v, f, Some(n)) && Shape(nodes, v, n, j) && nodes[n].sibling == None
    ensures FrameOk(nodes, v, f.Add(j), None) && EndOf(f.Add(j)) == n + Size(j)
  {
    hide Size, SizeAll, TextAt, NameOk, Segment;
    SizeAllSnoc(f.kids, j);
    SegmentSnoc(nodes, v, f.node + 1, f.kids, j, None);
    assert (f.kids + [j])[..|f.kids|] == f.kids;
  }

  // ----- the three updates of the parser's loop

  /** The innermost container of a stack. */
  lemma TopFrame(nodes: seq<Node>, v: string, stack: seq<Frame>, n: nat)
    requires StackOk(nodes, v, stack, n)
    ensures FrameOk(nodes, v, Top(stack), None)
    ensures Top(stack).node < n == EndOf(Top(stack)) <= |nodes|
    ensures nodes[Top(stack).node].u.Kids?
    ensures nodes[Top(stack).node].u.child.Some? ==> nodes[Top(stack).node].u.last < n
    ensures nodes[Top(stack).node].typ == ContainerType(Top(stack).isArray)
    ensures nodes[Top(stack).node].sibling == if |stack| == 1 then None else Some(stack[|stack| - 2].node)
  {
    assert LevelOk(nodes, v, stack, |stack| - 1);
    var f := Top(stack);
    hide Segment, Size, SizeAll, TextAt, NameOk, LevelOk, StackOk;
    if f.kids != [] { LastInside(f.kids); }
  }

  /** Node n has been appended to the innermost container of `nodes`. */
  ghost predicate Appended(nodes: seq<Node>, nodes': seq<Node>, v: string, stack: seq<Frame>, n: nat) {
    && StackOk(nodes, v, stack, n) && n < |nodes| == |nodes'|
    && Top(stack).node < |nodes| && nodes[Top(stack).node].u.Kids?
    && (nodes[Top(stack).node].u.child.Some? ==> nodes[Top(stack).node].u.last < |nodes|)
    && nodes' == AddLinks(nodes, Top(stack).node, n)[n := nodes'[n]]
  }

  /** Then the innermost container has an open member, and the others are as
      they were. */
  lemma AppendedFrames(nodes: seq<Node>, nodes': seq<Node>, v: string, stack: seq<Frame>, n: nat)
    requires Appended(nodes, nodes', v, stack, n)
    ensures FrameOk(nodes', v, Top(stack), Some(n)) && Top(stack).node < n
    ensures nodes'[Top(stack).node].sibling == if |stack| == 1 then None else Some(stack[|stack| - 2].node)
    ensures forall d :: 0 <= d < |stack| - 1 ==> LevelOk(nodes', v, stack, d)
  {
    var f := Top(stack);
    hide FrameOk, StackOk, AddLinks, EndOf, LevelOk;
    TopFrame(nodes, v, stack, n);
    AddOpens(nodes, v, f, n);
    LinkedKeeps(AddLinks(nodes, f.node, n), nodes', v, f, n);
    forall d | 0 <= d < |stack| - 1 ensures LevelOk(nodes', v, stack, d) {
      OuterKeep(nodes, nodes', v, stack, n, d);
    }
  }

  lemma LinkedKeeps(nodes: seq<Node>, nodes': seq<Node>, v: string, f: Frame, n: nat)
    requires FrameOk(nodes, v, f, Some(n)) && n < |nodes| == |nodes'| && nodes' == nodes[n := nodes'[n]]
    ensures FrameOk(nodes', v, f, Some(n))
  {
    hide Segment, SizeAll, NameOk;
    FrameKeeps(nodes, nodes', v, v, f, Some(n));
  }

  /** A leaf is appended to the innermost container. */
  lemma StackAddLeaf(nodes: seq<Node>, nodes': seq<Node>, v: string, stack: seq<Frame>, n: nat, j: Json)
    requires Appended(nodes, nodes', v, stack, n)
    requires j.Leaf? && Shape(nodes', v, n, j) && nodes'[n].sibling == None
    ensures StackOk(nodes', v, WithTop(stack, Top(stack).Add(j)), n + 1)
  {
    hide FrameOk, Shape, AddLinks, EndOf;
    var f, stack' := Top(stack), WithTop(stack, Top(stack).Add(j));
    AppendedFrames(nodes, nodes', v, stack, n);
    MemberCloses(nodes', v, f, n, j);
    forall d | 0 <= d < |stack'| ensures LevelOk(nodes', v, stack', d) {
      if d < |stack| - 1 { LevelMoves(nodes', v, stack, stack', d); }
    }
  }

  /** A container is appended to the innermost one and becomes the innermost:
      its `sibling` holds its parent. */
  lemma StackOpen(nodes: seq<Node>, nodes': seq<Node>, v: string, stack: seq<Frame>, n: nat, f': Frame)
    requires Appended(nodes, nodes', v, stack, n)
    requires f'.node == n && f'.kids == [] && NameOk(v, nodes'[n].name, f'.name)
    requires nodes'[n].typ == ContainerType(f'.isArray) && nodes'[n].u == Kids(None, 0)
    requires nodes'[n].sibling == Some(Top(stack).node)
    ensures StackOk(nodes', v, stack + [f'], n + 1)
  {
    hide AddLinks, NameOk;
    var stack' := stack + [f'];
    AppendedFrames(nodes, nodes', v, stack, n);
    assert FrameOk(nodes', v, f', None) by { NoKids(nodes', nodes', v, n + 1); }
    assert EndOf(f') == n + 1;
    hide FrameOk, EndOf;
    forall d | 0 <= d < |stack'| ensures LevelOk(nodes', v, stack', d) {
      if d < |stack| - 1 { LevelMoves(nodes', v, stack, stack', d); }
    }
  }

  /** The innermost container is closed: its parent link becomes a null sibling
      and its parent the innermost. */
  lemma StackClose(nodes: seq<Node>, v: string, stack: seq<Frame>, n: nat)
    requires StackOk(nodes, v, stack, n) && |stack| > 1
    ensures Top(stack).node < |nodes|
    ensures StackOk(nodes[Top(stack).node := nodes[Top(stack).node].(sibling := None)], v,
                    Close(stack, Top(stack).kids), n)
  {
    hide FrameOk, EndOf;
    var top, m := Top(stack), |stack| - 2;
    TopFrame(nodes, v, stack, n);
    var nodes' := nodes[top.node := nodes[top.node].(sibling := None)];
    ContainerComplete(nodes, nodes', v, top);
    var stack' := Close(stack, top.kids);
    OuterKeep(nodes, nodes', v, stack, n, m);
    MemberCloses(nodes', v, stack[m], top.node, Container(top.name, top.isArray, top.kids));
    EndOfTop(top);
    forall d | 0 <= d < |stack'| ensures LevelOk(nodes', v, stack', d) {
      if d < m {
        OuterKeep(nodes, nodes', v, stack, n, d);
        LevelMoves(nodes', v, stack, stack', d);
      }
    }
  }

  lemma EndOfTop(f: Frame)
    ensures EndOf(f) == f.node + Size(Container(f.name, f.isArray, f.kids))
  {
  }

  /** An open container with no open member is the image of its members. */
  lemma ContainerComplete(nodes: seq<Node>, nodes': seq<Node>, v: string, f: Frame)
    requires FrameOk(nodes, v, f, None) && |nodes| == |nodes'|
    requires SameOn(nodes, nodes', f.node + 1, EndOf(f))
    requires nodes'[f.node] == nodes[f.node].(sibling := nodes'[f.node].sibling)
    ensures Shape(nodes', v, f.node, Container(f.name, f.isArray, f.kids))
    ensures Size(Container(f.name, f.isArray, f.kids)) == 1 + SizeAll(f.kids)
  {
    hide Segment, TextAt, NameOk;
    SegmentFrame(nodes, nodes', v, v, f.node + 1, f.kids, None);
  }
}
