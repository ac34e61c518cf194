/** The printer: objects, arrays and properties appended to a destination buffer, and
    that the parser gets back what was printed. */
module JsonMaker {
  import opened Options
  import opened JsonText
  import opened JsonTree
  import opened JsonPool
  import opened JsonPrint
  import opened JsonSpelling
  import opened JsonWriter
  import opened JsonParser

  /** What stands in front of a value that is not text: the unescaped name, if any, and
      a colon. */
  function Label(name: Option<string>): string { if name.None? then "" else "\"" + name.value + "\":" }

  /** Appends a name and what follows it. */
  method Named(dest: array<char>, at: nat, name: Option<string>, text: string) returns (end: nat)
    requires at + |Label(name)| + |text| < dest.Length
    modifies dest
    ensures end == at + |Label(name)| + |text|
    ensures dest[at..end] == Label(name) + text && dest[end] == NUL
    ensures forall j :: 0 <= j < dest.Length && !(at <= j <= end) ==> dest[j] == old(dest[j])
  {
    if name.None? {
      end := Atoa(dest, at, text);
    } else {
      assert dest[at..at] == "" && "" + "\"" == "\"";
      end := Append(dest, at, at, "\"", "");
      end := Append(dest, at, end, name.value, "\"");
      end := Append(dest, at, end, "\":", "\"" + name.value);
      end := Append(dest, at, end, text, Label(name));
    }
  }

  /** Opens an object or an array. */
  method Open(dest: array<char>, at: nat, name: Option<string>, isArray: bool) returns (end: nat)
    requires at + |Label(name)| + 1 < dest.Length
    modifies dest
    ensures end == at + |Label(name)| + 1
    ensures dest[at..end] == Label(name) + (if isArray then "[" else "{") && dest[end] == NUL
    ensures forall j :: 0 <= j < dest.Length && !(at <= j <= end) ==> dest[j] == old(dest[j])
  {
    end := Named(dest, at, name, if isArray then "[" else "{");
  }

  /** Closes an object or an array: the comma after its last member, if there is one,
      gives way to the bracket and a comma. */
  method Close(dest: array<char>, at: nat, isArray: bool) returns (end: nat)
    requires 0 < at <= dest.Length && (if dest[at - 1] == ',' then at + 1 else at + 2) < dest.Length
    modifies dest
    ensures var p := if old(dest[at - 1]) == ',' then at - 1 else at;
            && end == p + 2 && dest[p..end] == (if isArray then "]," else "},") && dest[end] == NUL
            && forall j :: 0 <= j < dest.Length && !(p <= j <= end) ==> dest[j] == old(dest[j])
  {
    var p := if dest[at - 1] == ',' then at - 1 else at;
    end := Atoa(dest, p, if isArray then "]," else "},");
  }

  /** Adds a property that is not text: true, false, null, or the digits of a number. */
  method Primitive(dest: array<char>, at: nat, name: Option<string>, text: string) returns (end: nat)
    requires at + |Label(name)| + |text| + 1 < dest.Length
    modifies dest
    ensures end == at + |Label(name)| + |text| + 1
    ensures dest[at..end] == Label(name) + text + "," && dest[end] == NUL
    ensures forall j :: 0 <= j < dest.Length && !(at <= j <= end) ==> dest[j] == old(dest[j])
  {
    end := Named(dest, at, name, text + ",");
    Regroup(Label(name), text, ",");
  }

  /** Ends the root object: a trailing comma becomes the terminator. */
  method End(dest: array<char>, at: nat) returns (end: nat)
    requires 0 < at < dest.Length && dest[at] == NUL
    modifies dest
    ensures end == (if old(dest[at - 1]) == ',' then at - 1 else at) && dest[end] == NUL
    ensures forall j :: 0 <= j < dest.Length && j != end ==> dest[j] == old(dest[j])
  {
    end := at;
    if dest[at - 1] == ',' {
      dest[at - 1] := NUL;
      end := at - 1;
    }
  }

  // ----- a whole tree, as a client prints it

  /** What the printer can print so that it reads back: a tree as the grammar has it,
      with names that need no escapes. */
  ghost predicate Printable(j: Json, inArray: bool)
    decreases j
  {
    && WellFormed(j, inArray) && (j.name.Some? ==> Raw(j.name.value))
    && (j.Container? ==> forall i :: 0 <= i < |j.kids| ==> Printable(j.kids[i], j.isArray))
  }

  /** Members as the printer leaves them, a comma after each. */
  function Row(kids: seq<Json>): string {
    if kids == [] then "" else Write(kids[0], "") + "," + Row(kids[1..])
  }

  lemma {:induction false} RowIsKids(kids: seq<Json>)
    ensures kids == [] ==> Row(kids) == KidsText(kids, "") == ""
    ensures kids != [] ==> Row(kids) == KidsText(kids, "") + ","
    decreases |kids|
  {
    hide Write;
    if kids != [] {
      var w, rest := Write(kids[0], ""), kids[1..];
      RowIsKids(rest);
      if rest == [] {
        assert w + "," + "" == (w + "" + "") + ",";
      } else {
        assert w + "," + (KidsText(rest, "") + ",") == (w + "" + ("," + "" + KidsText(rest, ""))) + ",";
      }
    }
  }

  lemma LabelIsName(name: Option<string>)
    requires name.Some? ==> Raw(name.value)
    ensures NameText(name, "") == Label(name)
  {
    hide Raw, NameQuoted;
    if name.Some? { RawName(name.value); }
  }

  /** Clean text is printed as the escaped text, whatever the buffer held. */
  lemma {:induction false} PrintedIsEscaped(d: string, at: nat, src: string)
    requires Clean(src) && at + WidthAll(src) < |d|
    ensures Printed(d, at, src) == Escaped(src) && |Escaped(src)| == WidthAll(src)
    decreases |src|
  {
    hide NeedsUnicode;
    if src != "" {
      NoGapNeeded(src[0], d[at + Width(src[0]) - 1]);
      PrintedIsEscaped(d, at + Width(src[0]), src[1..]);
    }
  }

  lemma NoGapNeeded(c: char, gap: char)
    requires !NeedsUnicode(c)
    ensures Written(c, gap) == Written(c, ' ')
  {
  }

  /** What a text property looks like when its value is clean. */
  lemma TextWritten(d: string, start: nat, name: Option<string>, value: string)
    requires Clean(value) && start + WidthAll(value) < |d| && (name.Some? ==> Raw(name.value))
    ensures (if name.None? then "\"" else "\"" + name.value + "\":\"") + (Printed(d, start, value) + "\",")
         == Write(Leaf(name, Text, value), "") + ","
    ensures |Escaped(value)| == WidthAll(value)
  {
    hide Raw, Clean, Printed, WidthAll, NameText;
    PrintedIsEscaped(d, start, value);
    LabelIsName(name);
    OpeningIsLabel(name);
    InQuotesAfter(Label(name), Escaped(value));
  }

  lemma OpeningIsLabel(name: Option<string>)
    ensures (if name.None? then "\"" else "\"" + name.value + "\":\"") == Label(name) + "\""
  {
  }

  lemma InQuotesAfter(a: string, e: string)
    ensures (a + "\"") + (e + "\",") == (a + ("\"" + e + "\"")) + ","
  {
  }

  method PrintText(dest: array<char>, at: nat, name: Option<string>, value: string) returns (end: nat)
    requires Clean(value) && (name.Some? ==> Raw(name.value))
    requires at + |Write(Leaf(name, Text, value), "")| + 1 < dest.Length
    modifies dest
    ensures end == at + |Write(Leaf(name, Text, value), "")| + 1
    ensures dest[at..end] == Write(Leaf(name, Text, value), "") + "," && dest[end] == NUL
    ensures forall j :: 0 <= j < dest.Length && !(at <= j <= end) ==> dest[j] == old(dest[j])
  {
    hide Raw, Clean, Printed, WidthAll, Write;
    TextRoom(dest.Length, at, name, value);
    var start;
    ghost var d;
    start, end, d := JsonStr(dest, at, name, value);
    Spliced(dest, at, start, end);
    TextWritten(d, start, name, value);
  }

  lemma TextRoom(n: nat, at: nat, name: Option<string>, value: string)
    requires Clean(value) && (name.Some? ==> Raw(name.value))
    requires at + |Write(Leaf(name, Text, value), "")| + 1 < n
    ensures at + |Opening(name)| + WidthAll(value) + 2 < n
  {
    hide Raw, Clean, Printed, WidthAll, NameText;
    var d := Filler(WidthAll(value) + 1);
    PrintedIsEscaped(d, 0, value);
    LabelIsName(name);
  }

  lemma PrimitiveWritten(name: Option<string>, kind: LeafKind, text: string)
    requires kind != Text && (name.Some? ==> Raw(name.value))
    ensures Write(Leaf(name, kind, text), "") == Label(name) + text
  {
    hide Raw, NameText;
    LabelIsName(name);
  }

  lemma ContainerWritten(name: Option<string>, isArray: bool, kids: seq<Json>)
    requires name.Some? ==> Raw(name.value)
    ensures var open, close := if isArray then "[" else "{", if isArray then "]" else "}";
            Write(Container(name, isArray, kids), "") == (Label(name) + open) + KidsText(kids, "") + close
  {
    hide Raw, NameText, KidsText, Write;
    LabelIsName(name);
    NoGap(name, isArray, kids);
  }

  /** Prints a member and the comma after it. */
  method PrintMember(dest: array<char>, at: nat, j: Json, ghost inArray: bool) returns (end: nat)
    requires Printable(j, inArray) && at + |Write(j, "")| + 1 < dest.Length
    modifies dest
    ensures end == at + |Write(j, "")| + 1
    ensures dest[at..end] == Write(j, "") + "," && dest[end] == NUL
    ensures forall i :: 0 <= i < dest.Length && !(at <= i <= end) ==> dest[i] == old(dest[i])
    decreases j, 1
  {
    hide Raw, Clean, Write, Label, KidsText, Row, CString;
    match j
    case Leaf(name, kind, text) =>
      if kind == Text {
        end := PrintText(dest, at, name, text);
      } else {
        PrimitiveWritten(name, kind, text);
        end := Primitive(dest, at, name, text);
      }
    case Container(name, isArray, kids) =>
      ContainerWritten(name, isArray, kids);
      RowIsKids(kids);
      var p := Open(dest, at, name, isArray);
      ghost var open := dest[at..p];
      end := PrintRow(dest, p, kids, isArray);
      assert dest[at..p] == open;
      Spliced(dest, at, p, end);
      end := CloseRow(dest, at, end, isArray, open, KidsText(kids, ""), kids != []);
  }

  /** Closes what has been printed from `at` on. */
  method CloseRow(dest: array<char>, at: nat, from: nat, isArray: bool, ghost open: string, ghost row: string,
                  ghost some: bool)
    returns (end: nat)
    requires at + |open| + |row| + 2 < dest.Length && from <= dest.Length && open != "" && open[|open| - 1] != ','
    requires if some then at + |open| + |row| + 1 == from && dest[at..from] == open + (row + ",")
             else row == "" && at + |open| == from && dest[at..from] == open
    modifies dest
    ensures end == at + |open| + |row| + 2
    ensures dest[at..end] == open + row + (if isArray then "]" else "}") + "," && dest[end] == NUL
    ensures forall i :: 0 <= i < dest.Length && !(at <= i <= end) ==> dest[i] == old(dest[i])
  {
    ghost var p := at + |open| + |row|;
    RowEnds(dest, at, from, open, row, some);
    end := Close(dest, from, isArray);
    assert dest[at..p] == open + row;
    Spliced(dest, at, p, end);
    Regroup(open + row, if isArray then "]" else "}", ",");
  }

  lemma RowEnds(dest: array<char>, at: nat, from: nat, open: string, row: string, some: bool)
    requires from <= dest.Length && open != "" && open[|open| - 1] != ','
    requires if some then at + |open| + |row| + 1 == from && dest[at..from] == open + (row + ",")
             else row == "" && at + |open| == from && dest[at..from] == open
    ensures at < from && (dest[from - 1] == ',' <==> some) && dest[at..at + |open| + |row|] == open + row
  {
    assert dest[from - 1] == dest[at..from][from - 1 - at];
    if some {
      Regroup(open, row, ",");
      assert dest[at..from - 1] == dest[at..from][..from - 1 - at];
    } else {
      assert open + row == open;
    }
  }

  method PrintRow(dest: array<char>, at: nat, kids: seq<Json>, ghost isArray: bool) returns (end: nat)
    requires at + |Row(kids)| < dest.Length && forall i :: 0 <= i < |kids| ==> Printable(kids[i], isArray)
    modifies dest
    ensures end == at + |Row(kids)| && dest[at..end] == Row(kids)
    ensures forall i :: 0 <= i < dest.Length && !(at <= i <= end) ==> dest[i] == old(dest[i])
    decreases kids, 0
  {
    hide Printable, Write;
    if kids == [] {
      end := at;
    } else {
      var p := PrintMember(dest, at, kids[0], isArray);
      ghost var w := dest[at..p];
      end := PrintRow(dest, p, kids[1..], isArray);
      assert dest[at..p] == w;
      Spliced(dest, at, p, end);
    }
  }

  /** Prints a root object and ends it. */
  method PrintDocument(dest: array<char>, t: Json) returns (end: nat)
    requires Printable(t, true) && |Write(t, "")| + 1 < dest.Length
    modifies dest
    ensures end == |Write(t, "")| && dest[..end] == Write(t, "") && dest[end] == NUL
  {
    hide Printable, Write;
    end := PrintMember(dest, 0, t, true);
    assert dest[end - 1] == dest[0..end][end - 1] == ',';
    assert dest[..end - 1] == dest[0..end][..end - 1] == Write(t, "");
    end := End(dest, end);
  }

  /** Prints any printable object and parses it where it stands: parsing succeeds exactly
      when the pool is large enough, and the pool then holds that object. */
  method PrintThenCreate(buf: array<char>, nodes: array<Node>, t: Json) returns (r: Option<nat>)
    requires t.Container? && !t.isArray && Printable(t, true) && |Write(t, "")| + 1 < buf.Length && nodes.Length > 0
    modifies buf, nodes
    ensures r.Some? <==> Size(t) <= nodes.Length
    ensures r.Some? ==> r.value == 0 && exists end :: 0 <= end <= buf.Length && Shape(nodes[..], buf[..end], 0, t)
  {
    hide Write, Shape, Size, WellFormed, CString;
    var end := PrintDocument(buf, t);
    WriteIsC(t, "", true);
    assert "" + Write(t, "") + "" == Write(t, "");
    assert forall i :: 0 <= i < end ==> buf[i] == buf[..end][i];
    r := CreateWritten(buf, nodes, t, "", "");
  }

  // ----- one text property, whatever its name and its value

  /** Members already read stay. */
  lemma {:induction false} MembersKeep(s: string, p: nat, isArray: bool, kids: seq<Json>, free: nat)
    requires CString(s)
    ensures var r := Members(s, p, isArray, kids, free); r.Some? ==> kids <= r.value.0
    decreases |s| - p
  {
    hide ParseName, ParseLeaf, GoBlank;
    var b := GoBlank(s, p);
    if b.Some? {
      var q := b.value;
      if s[q] == ',' {
        MembersKeep(s, q + 1, isArray, kids, free);
      } else if s[q] != CloserOf(isArray) && free > 0 && ParseName(s, q, isArray).Some? {
        var (name, v) := ParseName(s, q, isArray).value;
        if s[v] == '{' || s[v] == '[' {
          var inner := Members(s, v + 1, s[v] == '[', [], free - 1);
          if inner.Some? {
            MembersKeep(s, inner.value.1, isArray, kids + [Container(name, s[v] == '[', inner.value.0)], inner.value.2);
          }
        } else {
          var leaf := ParseLeaf(s, v);
          if leaf.Some? {
            MembersKeep(s, leaf.value.2, isArray, kids + [Leaf(name, leaf.value.0, leaf.value.1)], free - 1);
          }
        }
      }
    }
  }

  /** The first member of an object is the one that stands first. */
  lemma FirstMember(s: string, p: nat, free: nat)
    requires CString(s) && p < |s| && s[p] == '\"'
    ensures var r, n := Members(s, p, false, [], free), ParseName(s, p, false);
            r.Some? ==>
              && n.Some? && r.value.0 != [] && r.value.0[0].name == n.value.0
              && (s[n.value.1] == '\"' ==>
                    ParseLeaf(s, n.value.1).Some? && r.value.0[0].Leaf?
                    && r.value.0[0].text == ParseLeaf(s, n.value.1).value.1)
  {
    hide ParseName, ParseLeaf, GoBlank, IsBlank;
    NotBlank('\"');
    NoBlank(s, p);
    var n := ParseName(s, p, false);
    if free > 0 && n.Some? {
      var (name, v) := n.value;
      if s[v] == '{' || s[v] == '[' {
        var inner := Members(s, v + 1, s[v] == '[', [], free - 1);
        if inner.Some? {
          var first := Container(name, s[v] == '[', inner.value.0);
          assert [] + [first] == [first];
          MembersKeep(s, inner.value.1, false, [first], inner.value.2);
        }
      } else {
        var leaf := ParseLeaf(s, v);
        if leaf.Some? {
          var first := Leaf(name, leaf.value.0, leaf.value.1);
          assert [] + [first] == [first];
          MembersKeep(s, leaf.value.2, false, [first], free - 1);
        }
      }
    }
  }

  /** A name as it stands, a colon and a value: the reader of names gives that name, and
      the position of the value, exactly when the name is raw. */
  lemma RawNameRead(s: string, p: nat, name: string)
    requires CString(s) && Spells(s, p, "\"" + name + "\":\"")
    ensures p < |s| && s[p] == '\"' && (ParseName(s, p, false).Some? ==> ParseName(s, p, false).value.0.Some?)
    ensures Raw(name) ==> ParseName(s, p, false) == Some((Some(name), p + |name| + 3))
    ensures !Raw(name) ==> ParseName(s, p, false).None? || ParseName(s, p, false).value.0 != Some(name)
  {
    hide ParseString, CString, Spells, Raw, GoBlank, IsBlank;
    var n := p + |name| + 2;
    assert "\"" + name + "\":\"" == "\"" + ((name + "\"") + (":" + "\""));
    SpellsHead(s, p, "\"" + name + "\":\"");
    SpellsSplit(s, p, "\"", (name + "\"") + (":" + "\""));
    SpellsSplit(s, p + 1, name + "\"", ":" + "\"");
    RawIff(s, p + 1, name);
    SpellsSplit(s, n, ":", "\"");
    SpellsHead(s, n, ":");
    SpellsHead(s, n + 1, "\"");
    NotBlank(':');
    NotBlank('\"');
    NoBlank(s, n);
    NoBlank(s, n + 1);
  }

  /** An object of one text property, as it stands in a buffer that held d before the
      value was printed at `at`: what a C reader sees of it. */
  function PropertyText(d: string, at: nat, name: string, value: string, rest: string): string
    requires at + WidthAll(value) < |d|
  {
    "{\"" + name + "\":\"" + Seen(Quoted(d, at, value, "}" + rest))
  }

  lemma PropertyParts(d: string, at: nat, name: string, value: string, rest: string)
    requires CString(name) && at + WidthAll(value) < |d|
    ensures var s := PropertyText(d, at, name, value, rest);
            && CString(s) && s[0] == '{' && CString("{\"" + name + "\":\"") && Spells(s, 1, "\"" + name + "\":\"")
  {
    hide Seen, Quoted, WidthAll;
    var front, q := "{\"" + name + "\":\"", Seen(Quoted(d, at, value, "}" + rest));
    assert front == "{" + ("\"" + name + "\":\"");
    BothC(front, q);
    Placed(front, "", q);
    assert front + "" + q == front + q && front + "" == front;
    SpellsSplit(front + q, 0, "{", "\"" + name + "\":\"");
  }

  /** The closing bracket comes right after the quote of a clean value. */
  lemma PropertyCloses(d: string, at: nat, name: string, value: string, rest: string)
    requires CString(name) && CString(value) && Clean(value) && at + WidthAll(value) < |d|
    ensures var s, e := PropertyText(d, at, name, value, rest), |name| + 5 + WidthAll(value) + 1;
            e < |s| && s[e] == '}'
  {
    hide Seen, Quoted, WidthAll, Printed;
    QuotedSeen(d, at, value, "}" + rest);
    SeenOne(rest);
    var front, w := "{\"" + name + "\":\"", Printed(d, at, value) + ['\"'];
    assert (front + (w + ("}" + Seen(rest))))[|front| + |w|] == '}';
  }

  lemma SeenOne(rest: string)
    ensures Seen("}" + rest) == "}" + Seen(rest)
  {
    hide Seen;
    SeenAll("}", rest);
  }

  /** The printed object reads back as the object of that one property if and only if its
      name needs no escapes, its value needs no long form and the pool has two nodes. */
  lemma PropertyIff(d: string, at: nat, name: string, value: string, rest: string, qty: nat)
    requires CString(name) && CString(value) && at + WidthAll(value) < |d| && qty > 0
    ensures var s := "{\"" + name + "\":\"" + Seen(Quoted(d, at, value, "}" + rest));
            && CString(s)
            && (ParseDocument(s, qty) == Some(Container(None, false, [Leaf(Some(name), Text, value)]))
                <==> Raw(name) && Clean(value) && qty >= 2)
  {
    hide Seen, Quoted, WidthAll, Members, ParseName, ParseString, Raw, Clean, GoBlank, IsBlank, CString, Spells;
    var s := PropertyText(d, at, name, value, rest);
    PropertyParts(d, at, name, value, rest);
    NotBlank('{');
    NoBlank(s, 0);
    RawNameRead(s, 1, name);
    FirstMember(s, 1, qty - 1);
    var front := "{\"" + name + "\":\"";
    RoundTripIffClean(d, at, value, "}" + rest, front);
    assert s[|front| - 1] == '\"';
    if Raw(name) && Clean(value) {
      var e := |front| + WidthAll(value) + 1;
      PropertyCloses(d, at, name, value, rest);
      OneProperty(s, name, value, e, qty);
    }
  }

  lemma OneProperty(s: string, name: string, value: string, e: nat, qty: nat)
    requires CString(s) && 1 < |s| && s[1] == '\"' && qty > 0
    requires ParseName(s, 1, false) == Some((Some(name), |name| + 4))
    requires s[|name| + 4] == '\"' && ParseString(s, |name| + 5) == Some((value, e)) && e < |s| && s[e] == '}'
    ensures var r := Members(s, 1, false, [], qty - 1);
            if qty >= 2 then r.Some? && r.value.0 == [Leaf(Some(name), Text, value)] else r.None?
  {
    hide Members, ParseName, ParseString, CString;
    var j := Leaf(Some(name), Text, value);
    LeafStep(s, 1, false, [], qty - 1, j, |name| + 4, e);
    assert [] + [j] == [j];
    if qty >= 2 { Closes(s, e, false, [j], qty - 2); }
  }

  /** Prints a text property and reads its name where it stands: the reader gives that
      name and the position of the value's opening quote if and only if the name needs no
      escapes. */
  method PrintThenName(buf: array<char>, at: nat, name: string, value: string) returns (start: nat, v: Option<nat>)
    requires CString(name) && at + |name| + 4 + WidthAll(value) + 2 < buf.Length
    modifies buf
    ensures start == at + |name| + 4
    ensures Raw(name) ==> v == Some(start - 1)
    ensures Raw(name) <==> v.Some? && v.value <= buf.Length && TextAt(buf[..v.value], at + 1, name)
  {
    hide WidthAll, Printed, Seen, Filler, Raw, ParseName, Spells, Written, CString, TextAt, Intact;
    var end;
    ghost var d;
    start, end, d := JsonStr(buf, at, Some(name), value);
    ghost var s := SeenFrom(buf, at, start, end, name);
    RawNameRead(s, at, name);
    v := PropertyName(buf, at, s);
    if v.Some? && TextAt(buf[..v.value], at + 1, name) {
      TextUnique(buf[..v.value], at + 1, name, ParseName(s, at, false).value.0.value);
    }
  }

  /** The text a C reader finds from `at` on, after a printed opening. */
  lemma SeenFrom(buf: array<char>, at: nat, start: nat, end: nat, name: string) returns (s: string)
    requires CString(name) && at + |name| + 4 == start <= end < buf.Length && buf[end] == NUL
    requires buf[at..start] == "\"" + name + "\":\""
    ensures Intact(buf, s, at) && CString(s) && |s| < buf.Length && Spells(s, at, "\"" + name + "\":\"")
  {
    hide Seen, Filler;
    var t, w := buf[at..], "\"" + name + "\":\"";
    assert t[end - at] == NUL;
    SeenEnds(t);
    s := Filler(at) + Seen(t);
    assert t == w + buf[start..];
    SeenAll(w, buf[start..]);
    assert Seen(t) == w + Seen(buf[start..]);
    forall j | at <= j < |s| ensures buf[j] == s[j] && s[j] != NUL {
      assert s[j] == Seen(t)[j - at] == t[j - at];
    }
  }

  /** Closes and ends the object around a text property. */
  method CloseProperty(dest: array<char>, start: nat, end: nat, ghost w: string)
    requires start + |w| + 2 == end && end + 1 < dest.Length && dest[start..end] == w + "\"," && dest[end] == NUL
    modifies dest
    ensures dest[start..end] == w + "\"}" && dest[end] == NUL
    ensures forall j :: 0 <= j < start ==> dest[j] == old(dest[j])
  {
    assert dest[end - 1] == dest[start..end][|w| + 1] == ',';
    assert dest[start..end - 1] == dest[start..end][..|w| + 1] == w + "\"";
    var e := Close(dest, end, false);
    assert dest[end - 1] == dest[end - 1..e][0] == '}' && dest[end] == dest[end - 1..e][1] == ',';
    e := End(dest, e);
    assert dest[start..end - 1] == w + "\"";
    Spliced(dest, start, end - 1, end);
    assert (w + "\"") + "}" == w + "\"}";
  }

  /** Prints an object of one text property. */
  method PrintObject(dest: array<char>, name: string, value: string) returns (start: nat, end: nat, ghost d: string)
    requires |name| + WidthAll(value) + 8 < dest.Length
    modifies dest
    ensures start == |name| + 5 && end == start + WidthAll(value) + 2 && |d| == dest.Length
    ensures dest[..start] == "{\"" + name + "\":\""
    ensures dest[start..end] == Printed(d, start, value) + "\"}" && dest[end] == NUL
  {
    hide WidthAll, Printed;
    start := Open(dest, 0, None, false);
    assert dest[0] == dest[0..1][0] == '{';
    start, end, d := JsonStr(dest, 1, Some(name), value);
    CloseProperty(dest, start, end, Printed(d, start, value));
    assert dest[1..start] == "\"" + name + "\":\"";
    BraceFirst(dest, start, name);
  }

  lemma BraceFirst(dest: array<char>, start: nat, name: string)
    requires 1 <= start <= dest.Length && dest[0] == '{' && dest[1..start] == "\"" + name + "\":\""
    ensures dest[..start] == "{\"" + name + "\":\""
  {
    assert dest[..start] == ['{'] + dest[1..start];
    assert ['{'] + ("\"" + name + "\":\"") == "{\"" + name + "\":\"";
  }

  /** Prints an object of one text property. For every buffer content, name, value and
      pool: what a C reader finds in the buffer reads as that object if and only if the
      name needs no escapes, the value needs no long form and the pool has two nodes. */
  method PrintProperty(dest: array<char>, name: string, value: string) returns (end: nat, ghost s: string)
    requires CString(name) && CString(value) && |name| + WidthAll(value) + 8 < dest.Length
    modifies dest
    ensures end == |name| + WidthAll(value) + 7 && dest[end] == NUL && Intact(dest, s, 0)
    ensures forall qty: nat :: qty > 0 ==>
      (ParseDocument(s, qty) == Some(Container(None, false, [Leaf(Some(name), Text, value)]))
       <==> Raw(name) && Clean(value) && qty >= 2)
  {
    hide WidthAll, Printed, Seen, Quoted, Raw, Clean, CString, ParseDocument;
    var start;
    ghost var d;
    start, end, d := PrintObject(dest, name, value);
    s := Property(dest, start, end, d, name, value);
    ghost var rest := dest[end..];
    forall qty: nat | qty > 0
      ensures ParseDocument(s, qty) == Some(Container(None, false, [Leaf(Some(name), Text, value)]))
              <==> Raw(name) && Clean(value) && qty >= 2
    {
      PropertyIff(d, start, name, value, rest, qty);
    }
  }

  /** The printed object as the text the parser is given. */
  lemma Property(dest: array<char>, start: nat, end: nat, d: string, name: string, value: string) returns (s: string)
    requires CString(name) && |name| + 5 == start && start + WidthAll(value) < |d| && start <= end < dest.Length
    requires dest[..start] == "{\"" + name + "\":\"" && dest[end] == NUL
    requires dest[start..end] == Printed(d, start, value) + "\"}"
    ensures Intact(dest, s, 0) && s == PropertyText(d, start, name, value, dest[end..])
  {
    hide WidthAll, Printed, Seen, CString;
    var front, rest := "{\"" + name + "\":\"", dest[end..];
    var t, q := dest[..], Quoted(d, start, value, "}" + rest);
    WholeBuffer(dest, start, end);
    QuoteThenBracket(Printed(d, start, value), rest);
    OpeningIsC(name);
    SeenAll(front, q);
    s := SeenIntact(dest, end);
  }

  lemma SeenIntact(dest: array<char>, end: nat) returns (s: string)
    requires end < dest.Length && dest[end] == NUL
    ensures s == Seen(dest[..]) && Intact(dest, s, 0)
  {
    hide Seen;
    var t := dest[..];
    assert t[end] == NUL;
    SeenEnds(t);
    s := Seen(t);
  }

  lemma OpeningIsC(name: string)
    requires CString(name)
    ensures CString("{\"" + name + "\":\"")
  {
  }

  lemma QuoteThenBracket(a: string, rest: string)
    ensures (a + "\"}") + rest == a + ['\"'] + ("}" + rest)
  {
  }

  lemma WholeBuffer(dest: array<char>, start: nat, end: nat)
    requires start <= end <= dest.Length
    ensures dest[..] == dest[..start] + (dest[start..end] + dest[end..])
  {
  }
}
