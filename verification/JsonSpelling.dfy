/** Text found at a position of a longer text: blanks, colons and quoted strings, and
    what the readers make of them. */
module JsonSpelling {
  import opened Options
  import opened JsonText
  import opened JsonTree
  import opened JsonPrint

  ghost predicate Spells(s: string, p: nat, w: string) { p + |w| <= |s| && s[p..p + |w|] == w }

  lemma SpellsSplit(s: string, p: nat, a: string, b: string)
    requires Spells(s, p, a + b)
    ensures Spells(s, p, a) && Spells(s, p + |a|, b)
  {
    var w := a + b;
    assert forall k :: 0 <= k < |w| ==> s[p + k] == s[p..p + |w|][k] == w[k];
    forall k | 0 <= k < |b| ensures s[p + |a|..p + |a| + |b|][k] == b[k] {
      assert s[p + (|a| + k)] == w[|a| + k];
    }
    assert s[p + |a|..p + |a| + |b|] == b;
    forall k | 0 <= k < |a| ensures s[p..p + |a|][k] == a[k] {
      assert s[p + k] == w[k];
    }
    assert s[p..p + |a|] == a;
  }

  lemma SpellsHead(s: string, p: nat, w: string)
    requires Spells(s, p, w) && w != ""
    ensures p < |s| && s[p] == w[0]
  {
    assert s[p] == s[p..p + |w|][0];
  }

  // ----- blanks and colons

  ghost predicate Blanks(gap: string) { forall i :: 0 <= i < |gap| ==> gap[i] in {' ', '\n', '\r', '\t', '\U{0C}'} }

  lemma {:induction false} GapSkipped(s: string, p: nat, gap: string)
    requires Spells(s, p, gap) && Blanks(gap)
    ensures GoBlank(s, p) == GoBlank(s, p + |gap|)
    decreases |gap|
  {
    if gap != "" {
      assert gap == [gap[0]] + gap[1..];
      SpellsSplit(s, p, [gap[0]], gap[1..]);
      SpellsHead(s, p, gap);
      GapSkipped(s, p + 1, gap[1..]);
    }
  }

  lemma NotBlank(c: char)
    requires c !in {' ', '\n', '\r', '\t', '\U{0C}'}
    ensures !IsBlank(c)
  {
  }

  lemma NoBlank(s: string, p: nat)
    requires p < |s| && !IsBlank(s[p])
    ensures GoBlank(s, p) == Some(p)
  {
  }

  /** A colon, with blanks on both sides. */
  lemma ColonReads(s: string, n: nat, gap: string)
    requires Blanks(gap) && Spells(s, n, gap + (":" + gap))
    requires var v := n + 2 * |gap| + 1; v < |s| && !IsBlank(s[v])
    ensures var c := n + |gap|;
            GoBlank(s, n) == Some(c) && s[c] == ':' && GoBlank(s, c + 1) == Some(n + 2 * |gap| + 1)
  {
    hide Spells, GoBlank, Blanks;
    var c := n + |gap|;
    SpellsSplit(s, n, gap, ":" + gap);
    GapSkipped(s, n, gap);
    SpellsSplit(s, c, ":", gap);
    SpellsHead(s, c, ":");
    NoBlank(s, c);
    GapSkipped(s, c + 1, gap);
    NoBlank(s, c + 1 + |gap|);
  }

  // ----- escaped text

  /** A string with every character that needs it escaped. */
  function Escaped(src: string): string {
    if src == "" then "" else Written(src[0], ' ') + Escaped(src[1..])
  }

  function InQuotes(src: string): string { "\"" + Escaped(src) + "\"" }

  ghost predicate Writable(t: string) { CString(t) && Clean(t) }

  lemma {:induction false} EscapedReads(s: string, p: nat, src: string)
    requires CString(s) && Writable(src) && Spells(s, p, Escaped(src) + "\"")
    ensures ParseString(s, p) == Some((src, p + |Escaped(src)| + 1))
    decreases |src|
  {
    hide Written, Width, ParseString, CString;
    if src == "" {
      assert Escaped(src) + "\"" == "\"";
      SpellsHead(s, p, "\"");
      QuoteEnds(s, p);
    } else {
      var c, w := src[0], Written(src[0], ' ');
      assert Escaped(src) + "\"" == w + (Escaped(src[1..]) + "\"");
      SpellsSplit(s, p, w, Escaped(src[1..]) + "\"");
      FirstOk(src);
      DecodesBack(c, ' ', s, p);
      EscapedReads(s, p + |w|, src[1..]);
      assert [c] + src[1..] == src;
    }
  }

  lemma FirstOk(src: string)
    requires Writable(src) && src != ""
    ensures src[0] != NUL && !NeedsUnicode(src[0]) && Writable(src[1..])
  {
    hide NeedsUnicode;
  }

  lemma QuotedReads(s: string, p: nat, src: string)
    requires CString(s) && Writable(src) && Spells(s, p, InQuotes(src))
    ensures p < |s| && s[p] == '\"' && ParseString(s, p + 1) == Some((src, p + |InQuotes(src)|))
  {
    hide ParseString, Escaped, CString, Writable;
    assert InQuotes(src) == "\"" + (Escaped(src) + "\"");
    SpellsHead(s, p, InQuotes(src));
    SpellsSplit(s, p, "\"", Escaped(src) + "\"");
    EscapedReads(s, p + 1, src);
  }

  /** The eight short escapes, spelled out, and a character that needs none. */
  lemma ShortEscapes()
    ensures Escaped("\"") == "\\\"" && Escaped("\\") == "\\\\" && Escaped("/") == "\\/"
    ensures Escaped("\U{08}") == "\\b" && Escaped("\U{0C}") == "\\f"
    ensures Escaped("\n") == "\\n" && Escaped("\r") == "\\r" && Escaped("\t") == "\\t" && Escaped("a") == "a"
  {
    hide Escaped;
    forall c: char ensures Escaped([c]) == Written(c, ' ') { OneEscaped(c); }
  }

  lemma OneEscaped(c: char)
    ensures Escaped([c]) == Written(c, ' ')
  {
    hide Written, Width;
    assert [c][1..] == "" && Written(c, ' ') + "" == Written(c, ' ');
  }

  /** The value of an upper-case hexadecimal digit. */
  function HexDigit(c: char): int {
    if '0' <= c <= '9' then c as int - '0' as int else if 'A' <= c <= 'F' then c as int - 'A' as int + 10 else -1
  }

  /** The long form names its character: four hexadecimal digits whose value it is. */
  lemma LongFormSpells(c: char, gap: char)
    requires NeedsUnicode(c)
    ensures var w := Written(c, gap);
            && |w| == 7 && w[..4] == "\\u00" && w[6] == gap
            && 0 <= HexDigit(w[4]) && 0 <= HexDigit(w[5]) && HexDigit(w[4]) * 16 + HexDigit(w[5]) == c as int
  {
    hide HexDigit;
    assert c < ' ';
    NibbleDigit(c as int / 16);
    NibbleDigit(c as int % 16);
  }

  lemma NibbleDigit(n: nat)
    requires n < 16
    ensures HexDigit(Nibble(n)) == n && forall m: nat :: m % 16 == n ==> Nibble(m) == Nibble(n)
  {
  }

  ghost predicate HexText(w: string) { forall i :: 0 <= i < |w| ==> w[i] in "0123456789abcdefABCDEF" }

  /** A Unicode escape reads as a question mark exactly when four hexadecimal digits
      follow it, and as nothing otherwise. */
  lemma UnicodeEscapeReads(s: string, p: nat)
    requires CString(s) && p + 1 < |s| && s[p] == '\\' && s[p + 1] == 'u'
    ensures ParseString(s, p)
         == if p + 6 <= |s| && HexText(s[p + 2..p + 6]) then Prepend('?', ParseString(s, p + 6)) else None
  {
    hide ParseString, HexRun, HexText;
    UnicodeByRun(s, p);
    FourHex(s, p + 2);
    if p + 6 <= |s| { FourLetters(s[p + 2..p + 6]); }
  }

  lemma UnicodeByRun(s: string, p: nat)
    requires CString(s) && p + 1 < |s| && s[p] == '\\' && s[p + 1] == 'u'
    ensures ParseString(s, p) == if HexRun(s, p + 2, 4) then Prepend('?', ParseString(s, p + 6)) else None
  {
    hide HexRun;
  }

  lemma FourLetters(w: string)
    requires |w| == 4
    ensures HexText(w) <==> IsHex(w[0]) && IsHex(w[1]) && IsHex(w[2]) && IsHex(w[3])
  {
    hide IsHex;
    forall i | 0 <= i < 4 ensures IsHex(w[i]) <==> w[i] in "0123456789abcdefABCDEF" { HexLetter(w[i]); }
  }

  lemma FourHex(s: string, p: nat)
    requires CString(s)
    ensures HexRun(s, p, 4) <==> p + 4 <= |s| && IsHex(s[p]) && IsHex(s[p + 1]) && IsHex(s[p + 2]) && IsHex(s[p + 3])
  {
    assert HexRun(s, p, 4) == (HexRun(s, p, 3) && IsHex(At(s, p + 3)));
    assert HexRun(s, p, 3) == (HexRun(s, p, 2) && IsHex(At(s, p + 2)));
    assert HexRun(s, p, 2) == (HexRun(s, p, 1) && IsHex(At(s, p + 1)));
  }

  lemma HexLetter(c: char)
    ensures IsHex(c) <==> c in "0123456789abcdefABCDEF"
  {
    var digits := "0123456789abcdefABCDEF";
    if '0' <= c <= '9' { assert digits[c as int - '0' as int] == c; }
    if 'a' <= c <= 'f' { assert digits[c as int - 'a' as int + 10] == c; }
    if 'A' <= c <= 'F' { assert digits[c as int - 'A' as int + 16] == c; }
  }

  // ----- text as it stands

  /** Text that stands for itself between quotes. */
  predicate Raw(t: string) { forall i :: 0 <= i < |t| ==> t[i] >= ' ' && t[i] != '\"' && t[i] != '\\' }

  /** Between quotes, text as it stands reads as itself exactly when it is raw. */
  lemma {:induction false} RawIff(s: string, p: nat, t: string)
    requires CString(s) && Spells(s, p, t + "\"")
    ensures Raw(t) ==> ParseString(s, p) == Some((t, p + |t| + 1))
    ensures !Raw(t) ==> ParseString(s, p).None? || ParseString(s, p).value.0 != t
    decreases |t|
  {
    hide DecodeOne, ParseString, CString, Spells, Raw;
    SpellsHead(s, p, t + "\"");
    if t == "" {
      QuoteEnds(s, p);
      NothingIsRaw();
    } else {
      assert t + "\"" == [t[0]] + (t[1..] + "\"");
      SpellsSplit(s, p, [t[0]], t[1..] + "\"");
      RawStep(t);
      if t[0] == '\\' {
        Lags(s, p, t, 0, 0);
        assert t[0..] == t;
      } else {
        OneRead(s, p);
        if t[0] >= ' ' && t[0] != '\"' { RawIff(s, p + 1, t[1..]); }
      }
    }
  }

  lemma NothingIsRaw()
    ensures Raw("")
  {
  }

  lemma RawStep(t: string)
    requires t != ""
    ensures Raw(t) <==> t[0] >= ' ' && t[0] != '\"' && t[0] != '\\' && Raw(t[1..])
    ensures t == [t[0]] + t[1..]
  {
    if Raw(t[1..]) {
      forall i | 1 <= i < |t| ensures t[i] >= ' ' && t[i] != '\"' && t[i] != '\\' {
        assert t[i] == t[1..][i - 1];
      }
    }
  }

  lemma OneRead(s: string, p: nat)
    requires CString(s) && p < |s| && s[p] != '\\'
    ensures s[p] < ' ' ==> ParseString(s, p).None?
    ensures s[p] == '\"' ==> ParseString(s, p) == Some(("", p + 1))
    ensures s[p] >= ' ' && s[p] != '\"' ==> ParseString(s, p) == Prepend(s[p], ParseString(s, p + 1))
  {
  }

  lemma EscapeRead(s: string, p: nat)
    requires CString(s) && p + 1 < |s| && s[p] == '\\'
    ensures s[p + 1] == '\\' ==> ParseString(s, p) == Prepend('\\', ParseString(s, p + 2))
    ensures s[p + 1] != '\\' && ParseString(s, p).Some? ==>
      ParseString(s, p).value.0 != "" && ParseString(s, p).value.0[0] != '\\'
  {
  }

  /** Once a backslash has been read as part of an escape, what is read from k on
      never makes up for the text from r on. */
  lemma {:induction false} Lags(s: string, p: nat, t: string, r: nat, k: nat)
    requires CString(s) && Spells(s, p, t + "\"") && r <= k <= |t| && r < |t| && t[r] == '\\'
    requires forall i :: r <= i < k ==> t[i] == '\\'
    ensures ParseString(s, p + k).None? || ParseString(s, p + k).value.0 != t[r..]
    decreases |t| - r
  {
    hide ParseString, CString;
    var w := t + "\"";
    assert forall i :: 0 <= i < |w| ==> s[p + i] == s[p..p + |w|][i] == w[i];
    var q := p + k;
    assert s[q] == w[k] && t[r..][0] == '\\';
    if s[q] != '\\' {
      OneRead(s, q);
    } else {
      assert s[q + 1] == w[k + 1];
      EscapeRead(s, q);
      if s[q + 1] == '\\' {
        Lags(s, p, t, r + 1, k + 2);
        assert t[r..] == ['\\'] + t[r + 1..];
      }
    }
  }
}
