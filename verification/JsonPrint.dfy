/** The string printer: escapes a C string into a destination buffer, and when
    reading the result back gives the original. */
module JsonPrint {
  import opened Options
  import opened JsonText

  /** The letter of a short escape. */
  function EscapeCode(c: char): Option<char> {
    if c == '\"' then Some('\"')
    else if c == '\\' then Some('\\')
    else if c == '/' then Some('/')
    else if c == BACKSPACE then Some('b')
    else if c == FORMFEED then Some('f')
    else if c == '\n' then Some('n')
    else if c == '\r' then Some('r')
    else if c == '\t' then Some('t')
    else None
  }

  predicate IsPlain(c: char) { c >= ' ' && c != '\"' && c != '\\' && c != '/' }

  /** A control character without a short escape. */
  predicate NeedsUnicode(c: char) { !IsPlain(c) && EscapeCode(c).None? }

  function Nibble(n: nat): char { "0123456789ABCDEF"[n % 16] }

  /** How many positions of the destination a character takes. The long form
      writes six characters and then skips one. */
  function Width(c: char): (n: nat)
    ensures n > 0
  {
    if IsPlain(c) then 1 else if NeedsUnicode(c) then 7 else 2
  }

  function WidthAll(src: string): nat {
    if src == "" then 0 else Width(src[0]) + WidthAll(src[1..])
  }

  /** What a character is written as; `gap` is whatever the destination held at
      the position the long form skips. */
  function Written(c: char, gap: char): (r: string)
    ensures |r| == Width(c)
  {
    if IsPlain(c) then [c]
    else if NeedsUnicode(c) then ['\\', 'u', '0', '0', Nibble(c as int / 16), Nibble(c as int), gap]
    else ['\\', EscapeCode(c).value]
  }

  /** The destination from `at` on after printing src over d. */
  function Printed(d: string, at: nat, src: string): (r: string)
    requires at + WidthAll(src) < |d|
    ensures |r| == WidthAll(src)
    decreases src
  {
    if src == "" then ""
    else Written(src[0], d[at + Width(src[0]) - 1]) + Printed(d, at + Width(src[0]), src[1..])
  }

  lemma PrintedStep(d: string, p: nat, src: string, i: nat)
    requires i < |src| && p + WidthAll(src[i..]) < |d|
    ensures WidthAll(src[i..]) == Width(src[i]) + WidthAll(src[i + 1..]) && Width(src[i]) > 0
    ensures Printed(d, p, src[i..])
         == Written(src[i], d[p + Width(src[i]) - 1]) + Printed(d, p + Width(src[i]), src[i + 1..])
  {
    hide Written;
    assert src[i..][0] == src[i] && src[i..][1..] == src[i + 1..];
  }

  lemma PrintedNothing(d: string, p: nat)
    ensures WidthAll("") == 0 && (p < |d| ==> Printed(d, p, "") == "")
  {
  }

  /** Copies src to dest at `at`, escaping as it goes, and terminates it. */
  method AtoEsc(dest: array<char>, at: nat, src: string) returns (end: nat)
    requires at + WidthAll(src) < dest.Length
    modifies dest
    ensures end == at + WidthAll(src)
    ensures dest[at..end] == Printed(old(dest[..]), at, src) && dest[end] == NUL
    ensures forall j :: 0 <= j < dest.Length && !(at <= j <= end) ==> dest[j] == old(dest[j])
  {
    hide Width, WidthAll, Written, Printed;
    ghost var d := dest[..];
    var i, p := 0, at;
    assert src[0..] == src;
    ghost var done := "";
    while i < |src|
      invariant 0 <= i <= |src| && at <= p && p + WidthAll(src[i..]) == at + WidthAll(src)
      invariant dest[at..p] == done && done + Printed(d, p, src[i..]) == Printed(d, at, src)
      invariant forall j :: 0 <= j < dest.Length && !(at <= j < p) ==> dest[j] == d[j]
    {
      PrintedStep(d, p, src, i);
      var k := Width(src[i]);
      ghost var w := Written(src[i], d[p + k - 1]);
      PrintChar(dest, p, src[i]);
      assert dest[at..p] == done;
      Regroup(done, w, Printed(d, p + k, src[i + 1..]));
      Spliced(dest, at, p, p + k);
      done := done + w;
      p, i := p + k, i + 1;
    }
    assert src[i..] == "";
    PrintedNothing(d, p);
    dest[p] := NUL;
    assert dest[at..p] == done && done + "" == done;
    end := p;
  }

  lemma Spliced(a: array<char>, i: nat, j: nat, k: nat)
    requires i <= j <= k <= a.Length
    ensures a[i..k] == a[i..j] + a[j..k]
  {
  }

  lemma Regroup(a: string, b: string, c: string)
    ensures a + (b + c) == (a + b) + c
  {
  }

  /** Writes the rest of the long form after its backslash. */
  method PrintLong(dest: array<char>, p: nat, c: char)
    requires p + 7 <= dest.Length && dest[p] == '\\'
    modifies dest
    ensures dest[p..p + 7] == ['\\', 'u', '0', '0', Nibble(c as int / 16), Nibble(c as int), old(dest[p + 6])]
    ensures forall j :: 0 <= j < dest.Length && !(p < j < p + 6) ==> dest[j] == old(dest[j])
  {
    hide Nibble;
    dest[p + 1], dest[p + 2], dest[p + 3] := 'u', '0', '0';
    dest[p + 4], dest[p + 5] := Nibble(c as int / 16), Nibble(c as int);
  }

  /** Writes one character at p; the position the long form skips keeps what it
      held. */
  method PrintChar(dest: array<char>, p: nat, c: char)
    requires p + Width(c) <= dest.Length
    modifies dest
    ensures dest[p..p + Width(c)] == Written(c, old(dest[p + Width(c) - 1]))
    ensures forall j :: 0 <= j < dest.Length && !(p <= j < p + Width(c)) ==> dest[j] == old(dest[j])
  {
    hide Nibble, EscapeCode;
    if c >= ' ' && c != '\"' && c != '\\' && c != '/' {
      dest[p] := c;
    } else {
      dest[p] := '\\';
      var esc := EscapeCode(c);
      if esc.Some? {
        dest[p + 1] := esc.value;
      } else {
        PrintLong(dest, p, c);
      }
    }
  }

  // ----- reading it back

  /** The part of the destination a C string reader sees. */
  function Seen(t: string): (r: string)
    ensures CString(r) && r <= t
  {
    if t == "" || t[0] == NUL then "" else [t[0]] + Seen(t[1..])
  }

  /** No character of src needs the long form. */
  predicate Clean(src: string) { forall i :: 0 <= i < |src| ==> !NeedsUnicode(src[i]) }

  /** A character that does not need the long form decodes to itself. */
  lemma DecodesBack(c: char, gap: char, t: string, p: nat)
    requires CString(t) && c != NUL && !NeedsUnicode(c)
    requires p + Width(c) <= |t| && t[p..p + Width(c)] == Written(c, gap)
    ensures ParseString(t, p) == Prepend(c, ParseString(t, p + Width(c)))
  {
    assert t[p] == t[p..p + Width(c)][0];
    if !IsPlain(c) { assert t[p + 1] == t[p..p + Width(c)][1]; }
  }

  /** The long form decodes to a question mark, if reading goes on at all. */
  lemma LongFormReads(c: char, gap: char, t: string, p: nat)
    requires CString(t) && NeedsUnicode(c)
    requires p + 6 <= |t| && t[p..p + 6] == Written(c, gap)[..6]
    ensures ParseString(t, p).Some? ==> ParseString(t, p).value.0 != "" && ParseString(t, p).value.0[0] == '?'
  {
    var w := t[p..p + 6];
    assert t[p] == w[0] && t[p + 1] == w[1];
  }

  /** A clean prefix is read back as it was. */
  lemma {:induction false} CleanReadsBack(d: string, at: nat, src: string, t: string, p: nat)
    requires CString(t) && CString(src) && Clean(src) && at + WidthAll(src) < |d|
    requires p + WidthAll(src) <= |t| && t[p..p + WidthAll(src)] == Printed(d, at, src)
    ensures ParseString(t, p) == After(src, ParseString(t, p + WidthAll(src)))
    decreases |src|
  {
    hide Width, Written, ParseString;
    if src == "" {
      AfterNothing(ParseString(t, p));
    } else {
      var c, k := src[0], Width(src[0]);
      var pr, rest := Printed(d, at, src), src[1..];
      FirstThenRest(t, p, pr, k);
      DecodesBack(c, d[at + k - 1], t, p);
      CleanReadsBack(d, at + k, rest, t, p + k);
      AfterSplit(c, rest, ParseString(t, p + WidthAll(src)));
      assert src == [c] + rest;
    }
  }

  lemma FirstThenRest(t: string, p: nat, pr: string, k: nat)
    requires p + |pr| <= |t| && t[p..p + |pr|] == pr && k <= |pr|
    ensures t[p..p + k] == pr[..k] && t[p + k..p + |pr|] == pr[k..]
  {
  }

  lemma AfterSplit(c: char, rest: string, r: Option<(string, nat)>)
    ensures Prepend(c, After(rest, r)) == After([c] + rest, r)
  {
    if r.Some? { assert [c] + (rest + r.value.0) == ([c] + rest) + r.value.0; }
  }

  // ----- the round trip

  /** The printed form, its closing quote, and whatever follows. */
  function Quoted(d: string, at: nat, src: string, rest: string): string
    requires at + WidthAll(src) < |d|
  {
    Printed(d, at, src) + ['\"'] + rest
  }

  lemma {:induction false} SeenAll(a: string, b: string)
    requires CString(a)
    ensures Seen(a + b) == a + Seen(b)
  {
    if a == "" {
      assert a + b == b;
    } else {
      assert (a + b)[1..] == a[1..] + b;
      SeenAll(a[1..], b);
    }
  }

  lemma WrittenClean(c: char, gap: char)
    requires c != NUL && !NeedsUnicode(c)
    ensures CString(Written(c, gap))
  {
  }

  lemma {:induction false} PrintedClean(d: string, at: nat, src: string)
    requires CString(src) && Clean(src) && at + WidthAll(src) < |d|
    ensures CString(Printed(d, at, src))
    decreases |src|
  {
    hide Width, Written;
    if src != "" {
      WrittenClean(src[0], d[at + Width(src[0]) - 1]);
      PrintedClean(d, at + Width(src[0]), src[1..]);
    }
  }

  lemma {:induction false} WidthAllConcat(a: string, b: string)
    ensures WidthAll(a + b) == WidthAll(a) + WidthAll(b)
    decreases |a|
  {
    hide Width;
    if a == "" {
      assert a + b == b;
    } else {
      assert (a + b)[0] == a[0] && (a + b)[1..] == a[1..] + b;
      WidthAllConcat(a[1..], b);
    }
  }

  /** Printing is done piece by piece. */
  lemma {:induction false} PrintedConcat(d: string, at: nat, a: string, b: string)
    requires at + WidthAll(a + b) < |d|
    ensures WidthAll(a + b) == WidthAll(a) + WidthAll(b)
    ensures Printed(d, at, a + b) == Printed(d, at, a) + Printed(d, at + WidthAll(a), b)
    decreases |a|
  {
    hide Width, Written, Printed, WidthAll;
    WidthAllConcat(a, b);
    if a == "" {
      assert a + b == b;
      PrintedNothing(d, at);
      assert "" + Printed(d, at, b) == Printed(d, at, b);
    } else {
      var k := Width(a[0]);
      assert (a + b)[0] == a[0] && (a + b)[1..] == a[1..] + b && (a + b)[0..] == a + b && a[0..] == a;
      PrintedStep(d, at, a + b, 0);
      PrintedStep(d, at, a, 0);
      PrintedConcat(d, at + k, a[1..], b);
      Regroup(Written(a[0], d[at + k - 1]), Printed(d, at + k, a[1..]), Printed(d, at + WidthAll(a), b));
    }
  }

  /** A clean string comes back exactly, and reading stops just past its closing
      quote, whatever the buffer held before, whatever stands in front of the string
      and whatever follows. */
  lemma CleanRoundTrip(d: string, at: nat, src: string, rest: string, front: string)
    requires CString(front) && CString(src) && Clean(src) && at + WidthAll(src) < |d|
    ensures ParseString(front + Seen(Quoted(d, at, src, rest)), |front|) == Some((src, |front| + WidthAll(src) + 1))
  {
    hide Printed, WidthAll, Seen, ParseString, Clean, Quoted, CString;
    var body := Seen(Quoted(d, at, src, rest));
    QuotedSeen(d, at, src, rest);
    BothC(front, body);
    QuoteInside(front, body, Printed(d, at, src), Seen(rest));
    CleanThenQuote(d, at, src, front + body, |front|);
  }

  lemma QuoteInside(front: string, body: string, a: string, c: string)
    requires body == (a + ['\"']) + c
    ensures var t, p := front + body, |front|;
            p + |a| < |t| && t[p..p + |a|] == a && t[p + |a|] == '\"'
  {
    var t, p := front + body, |front|;
    forall k | 0 <= k < |a| ensures t[p..p + |a|][k] == a[k] {
      assert t[p + k] == body[k];
    }
    assert t[p + |a|] == body[|a|];
  }

  lemma CleanThenQuote(d: string, at: nat, src: string, t: string, p: nat)
    requires CString(t) && CString(src) && Clean(src) && at + WidthAll(src) < |d|
    requires p + WidthAll(src) < |t| && t[p..p + WidthAll(src)] == Printed(d, at, src) && t[p + WidthAll(src)] == '\"'
    ensures ParseString(t, p) == Some((src, p + WidthAll(src) + 1))
  {
    hide Printed, WidthAll, ParseString, Clean, CString, After;
    CleanReadsBack(d, at, src, t, p);
    QuoteEnds(t, p + WidthAll(src));
    AfterEnd(src, p + WidthAll(src) + 1);
  }

  lemma AfterEnd(src: string, p: nat)
    ensures After(src, Some(("", p))) == Some((src, p))
  {
    assert src + "" == src;
  }

  lemma QuotedSeen(d: string, at: nat, src: string, rest: string)
    requires CString(src) && Clean(src) && at + WidthAll(src) < |d|
    ensures Seen(Quoted(d, at, src, rest)) == (Printed(d, at, src) + ['\"']) + Seen(rest)
  {
    hide Printed, WidthAll, Seen, Clean;
    PrintedClean(d, at, src);
    SeenAll(Printed(d, at, src) + ['\"'], rest);
  }

  lemma BothC(a: string, b: string)
    requires CString(a) && CString(b)
    ensures CString(a + b)
  {
  }

  lemma Middle(front: string, a: string, b: string, c: string)
    ensures var t, p := front + ((a + b) + c), |front|;
            t[p..p + |a|] == a && t[p + |a|..p + |a| + |b|] == b && (b != "" ==> t[p + |a|] == b[0])
  {
  }

  lemma QuoteEnds(t: string, p: nat)
    requires CString(t) && p < |t| && t[p] == '\"'
    ensures ParseString(t, p) == Some(("", p + 1))
  {
  }

  /** The printed form around the first character that needs the long form. */
  lemma QuotedSplit(d: string, at: nat, src: string, rest: string, i: nat) returns (gap: char, tail: string)
    requires at + WidthAll(src) < |d| && i < |src| && NeedsUnicode(src[i])
    ensures at + WidthAll(src[..i]) < |d|
    ensures Quoted(d, at, src, rest) == (Printed(d, at, src[..i]) + Written(src[i], gap)[..6]) + tail
    ensures |Written(src[i], gap)| == 7
  {
    hide Printed, WidthAll, Written;
    var pre, post := src[..i], src[i..];
    assert src == pre + post;
    PrintedConcat(d, at, pre, post);
    var p := at + WidthAll(pre);
    PrintedStep(d, p, src, i);
    gap := d[p + Width(src[i]) - 1];
    var w, more := Written(src[i], gap), Printed(d, p + Width(src[i]), src[i + 1..]);
    LongFormText(src[i], gap);
    tail := w[6..] + more + ['\"'] + rest;
    Pieces(Printed(d, at, pre), w, more, rest);
  }

  lemma Pieces(a: string, w: string, more: string, rest: string)
    requires |w| == 7
    ensures a + (w + more) + ['\"'] + rest == (a + w[..6]) + (w[6..] + more + ['\"'] + rest)
  {
    assert w == w[..6] + w[6..];
  }

  /** A string with a character that needs the long form never comes back. */
  lemma LongFormBreaksRoundTrip(d: string, at: nat, src: string, rest: string, front: string, i: nat)
    requires CString(front) && CString(src) && at + WidthAll(src) < |d|
    requires i < |src| && NeedsUnicode(src[i]) && Clean(src[..i])
    ensures var r := ParseString(front + Seen(Quoted(d, at, src, rest)), |front|); r.Some? ==> r.value.0 != src
  {
    hide Printed, WidthAll, ParseString, Written, Quoted, Seen, CString, Clean;
    var pre := src[..i];
    var gap, more := LongFormSeen(d, at, src, rest, i);
    var p, w := |front| + WidthAll(pre), Written(src[i], gap)[..6];
    var t := front + Seen(Quoted(d, at, src, rest));
    BothC(front, Seen(Quoted(d, at, src, rest)));
    PartC(src, i);
    Middle(front, Printed(d, at, pre), w, more);
    CleanReadsBack(d, at, pre, t, |front|);
    LongFormReads(src[i], gap, t, p);
    LongFormText(src[i], gap);
    var r := ParseString(t, p);
    if r.Some? { assert (pre + r.value.0)[i] == '?'; }
  }

  lemma PartC(a: string, i: nat)
    requires CString(a) && i <= |a|
    ensures CString(a[..i])
  {
  }

  /** What a C reader sees of a string whose first character in the long form is at i. */
  lemma LongFormSeen(d: string, at: nat, src: string, rest: string, i: nat) returns (gap: char, more: string)
    requires CString(src) && at + WidthAll(src) < |d|
    requires i < |src| && NeedsUnicode(src[i]) && Clean(src[..i])
    ensures at + WidthAll(src[..i]) < |d| && |Written(src[i], gap)| == 7
    ensures Seen(Quoted(d, at, src, rest)) == (Printed(d, at, src[..i]) + Written(src[i], gap)[..6]) + more
  {
    hide Printed, WidthAll, Written, Quoted, Seen, Clean;
    var tail;
    gap, tail := QuotedSplit(d, at, src, rest, i);
    LongFormText(src[i], gap);
    PrintedClean(d, at, src[..i]);
    SeenAll(Printed(d, at, src[..i]) + Written(src[i], gap)[..6], tail);
    more := Seen(tail);
  }

  lemma LongFormText(c: char, gap: char)
    requires NeedsUnicode(c)
    ensures Width(c) == 7 && CString(Written(c, gap)[..6]) && c != '?'
  {
  }

  /** The round trip gives the original back exactly when no character needs the
      long form. */
  lemma RoundTripIffClean(d: string, at: nat, src: string, rest: string, front: string)
    requires CString(front) && CString(src) && at + WidthAll(src) < |d|
    ensures var r := ParseString(front + Seen(Quoted(d, at, src, rest)), |front|);
            && (Clean(src) ==> r == Some((src, |front| + WidthAll(src) + 1)))
            && (!Clean(src) ==> r.None? || r.value.0 != src)
  {
    hide ParseString, Seen, Quoted, WidthAll;
    if Clean(src) {
      CleanRoundTrip(d, at, src, rest, front);
    } else {
      var i := FirstUnclean(src);
      LongFormBreaksRoundTrip(d, at, src, rest, front, i);
    }
  }

  lemma {:induction false} FirstUnclean(src: string) returns (i: nat)
    requires !Clean(src)
    ensures i < |src| && NeedsUnicode(src[i]) && Clean(src[..i])
    decreases |src|
  {
    if NeedsUnicode(src[0]) {
      i := 0;
    } else {
      i := FirstUnclean(src[1..]);
      forall j | 0 <= j < i + 1 ensures !NeedsUnicode(src[j]) {
        if j > 0 { assert src[j] == src[1..][..i][j - 1]; }
      }
      i := i + 1;
    }
  }

  /** The smallest string that does not come back: the single character U+0001. */
  lemma StartOfHeadingIsLost(d: string, at: nat, rest: string)
    requires at + 7 < |d|
    ensures WidthAll("\U{1}") == 7
    ensures ParseString(Seen(Quoted(d, at, "\U{1}", rest)), 0) != Some(("\U{1}", 8))
  {
    var src := "\U{1}";
    assert src[1..] == "";
    assert NeedsUnicode(src[0]) && Clean(src[..0]);
    LongFormBreaksRoundTrip(d, at, src, rest, "", 0);
    assert "" + Seen(Quoted(d, at, src, rest)) == Seen(Quoted(d, at, src, rest));
  }

  // ----- printing a text property and parsing it where it stands

  /** Copies text to dest and terminates it. */
  method Atoa(dest: array<char>, at: nat, text: string) returns (end: nat)
    requires at + |text| < dest.Length
    modifies dest
    ensures end == at + |text|
    ensures dest[at..end] == text && dest[end] == NUL
    ensures forall j :: 0 <= j < dest.Length && !(at <= j <= end) ==> dest[j] == old(dest[j])
  {
    var i := 0;
    while i < |text|
      invariant 0 <= i <= |text| && dest[at..at + i] == text[..i]
      invariant forall j :: 0 <= j < dest.Length && !(at <= j < at + i) ==> dest[j] == old(dest[j])
    {
      dest[at + i] := text[i];
      assert dest[at..at + i + 1] == dest[at..at + i] + [text[i]];
      i := i + 1;
    }
    end := at + i;
    dest[end] := NUL;
    assert dest[at..end] == text;
  }

  /** Copies text to where the text written so far ends. */
  method Append(dest: array<char>, at: nat, from: nat, text: string, ghost done: string) returns (end: nat)
    requires at <= from && from + |text| < dest.Length && dest[at..from] == done
    modifies dest
    ensures end == from + |text| && at <= end < dest.Length
    ensures dest[at..end] == done + text && dest[end] == NUL
    ensures forall j :: 0 <= j < dest.Length && !(from <= j <= end) ==> dest[j] == old(dest[j])
  {
    end := Atoa(dest, from, text);
    assert dest[at..from] == done;
    Spliced(dest, at, from, end);
  }

  /** What stands in front of the value: a quote, after the unescaped name, if any. */
  function Opening(name: Option<string>): string {
    if name.None? then "\"" else "\"" + name.value + "\":\""
  }

  lemma OpeningText(name: Option<string>)
    ensures Opening(name) == if name.None? then "\"" else "\"" + name.value + "\":\""
  {
  }

  /** Writes the opening of a text property. */
  method StrName(dest: array<char>, at: nat, name: Option<string>) returns (end: nat)
    requires at + |Opening(name)| < dest.Length
    modifies dest
    ensures end == at + |Opening(name)|
    ensures dest[at..end] == Opening(name) && dest[end] == NUL
    ensures forall j :: 0 <= j < dest.Length && !(at <= j <= end) ==> dest[j] == old(dest[j])
  {
    assert dest[at..at] == "" && "" + "\"" == "\"";
    end := Append(dest, at, at, "\"", "");
    if name.Some? {
      end := Append(dest, at, end, name.value, "\"");
      end := Append(dest, at, end, "\":\"", "\"" + name.value);
    }
  }

  /** Prints a text property: opening, escaped value, closing quote and comma. Gives
      where the value starts and where the terminator stands. */
  method JsonStr(dest: array<char>, at: nat, name: Option<string>, value: string)
    returns (start: nat, end: nat, ghost d: string)
    requires at + |Opening(name)| + WidthAll(value) + 2 < dest.Length
    modifies dest
    ensures start == at + |Opening(name)| && end == start + WidthAll(value) + 2 && |d| == dest.Length
    ensures dest[at..start] == if name.None? then "\"" else "\"" + name.value + "\":\""
    ensures dest[start..end] == Printed(d, start, value) + "\"," && dest[end] == NUL
    ensures forall j :: 0 <= j < dest.Length && !(at <= j <= start) ==> d[j] == old(dest[j])
    ensures forall j :: 0 <= j < dest.Length && !(at <= j <= end) ==> dest[j] == old(dest[j])
  {
    hide Opening, WidthAll, Printed;
    start := StrName(dest, at, name);
    OpeningText(name);
    d := dest[..];
    var close := AtoEsc(dest, start, value);
    assert dest[at..start] == d[at..start];
    end := Append(dest, start, close, "\",", dest[start..close]);
  }

  /** The rest of a buffer that has a terminator ends, for a C reader, at the first. */
  lemma {:induction false} SeenEnds(t: string)
    requires NUL in t
    ensures |Seen(t)| < |t| && t[|Seen(t)|] == NUL
  {
    if t[0] != NUL {
      SeenEnds(t[1..]);
    }
  }

  function Filler(n: nat): (r: string)
    ensures |r| == n && CString(r)
  {
    if n == 0 then "" else Filler(n - 1) + "."
  }

  lemma TextUnique(v: string, at: nat, a: string, b: string)
    requires TextAt(v, at, a) && TextAt(v, at, b)
    ensures a == b
  {
  }

  /** The printed property as the text the in-place parser is given. */
  lemma PrintedIsText(buf: array<char>, start: nat, end: nat, d: string, value: string) returns (s: string)
    requires start + WidthAll(value) < |d| && start <= end < buf.Length
    requires buf[start..end] == Printed(d, start, value) + "\"," && buf[end] == NUL
    ensures Intact(buf, s, start) && start <= |s|
    ensures exists rest :: s == Filler(start) + Seen(Quoted(d, start, value, rest))
  {
    hide Printed, Seen, Filler, WidthAll;
    var t := buf[start..];
    assert t[end - start] == NUL;
    SeenEnds(t);
    s := Filler(start) + Seen(t);
    var rest := "," + buf[end..];
    assert t == buf[start..end] + buf[end..];
    assert t == Quoted(d, start, value, rest);
    forall j | start <= j < |s| ensures buf[j] == s[j] && s[j] != NUL {
      assert s[j] == Seen(t)[j - start] == t[j - start];
    }
  }

  /** Prints a text property anywhere in a buffer and parses the value where it
      stands. For every buffer content, name and value: if no character of the value
      needs the long form, parsing succeeds just past the closing quote and leaves
      the value itself; otherwise what it leaves, if anything, is not the value. */
  method PrintThenParse(buf: array<char>, at: nat, name: Option<string>, value: string)
    returns (start: nat, r: Option<nat>)
    requires CString(value) && at + |Opening(name)| + WidthAll(value) + 2 < buf.Length
    modifies buf
    ensures start == at + |Opening(name)|
    ensures Clean(value) ==> r == Some(start + WidthAll(value) + 1)
    ensures Clean(value) <==> r.Some? && r.value <= buf.Length && TextAt(buf[..r.value], start, value)
  {
    hide WidthAll, Printed, Seen, ParseString, Quoted, Opening, Filler;
    var end;
    ghost var d;
    start, end, d := JsonStr(buf, at, name, value);
    ghost var s := PrintedIsText(buf, start, end, d, value);
    ghost var rest :| s == Filler(start) + Seen(Quoted(d, start, value, rest));
    RoundTripIffClean(d, start, value, rest, Filler(start));
    r := ParseStringInPlace(buf, start, s);
    if r.Some? && TextAt(buf[..r.value], start, value) {
      TextUnique(buf[..r.value], start, value, ParseString(s, start).value.0);
    }
  }
}
