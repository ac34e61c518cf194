/** The lexemes of JSON numbers, spelled out, and that the number scanner accepts
    exactly them. */
module JsonLexeme {
  import opened Options
  import opened JsonText
  import opened JsonNumber

  ghost predicate Digits(t: string) { t != "" && AllDigits(t) }

  /** Nothing, or a point and digits. */
  ghost predicate FractionPart(t: string) { t == "" || (t[0] == '.' && Digits(t[1..])) }

  /** Nothing, or an e, an optional sign, and digits. */
  ghost predicate ExponentPart(t: string) {
    t == "" || (t[0] in {'e', 'E'} && Digits(if |t| > 1 && t[1] in {'+', '-'} then t[2..] else t[1..]))
  }

  /** An integer part, then a fraction and an exponent. */
  ghost predicate InParts(t: string, i: nat, f: nat) {
    0 < i <= f <= |t| && IntegerLexeme(t[..i]) && FractionPart(t[i..f]) && ExponentPart(t[f..])
  }

  /** A number, real when it has a fraction or an exponent, and otherwise an integer
      of 64 signed bits. */
  ghost predicate NumberLexeme(t: string, isReal: bool) {
    exists i: nat, f: nat ::
      && InParts(t, i, f) && isReal == (i < |t|)
      && (isReal || -9223372036854775808 <= IntValue(t) <= 9223372036854775807)
  }

  lemma {:induction false} DigitsTo(s: string, p: nat, q: nat)
    requires p <= q < |s| && AllDigits(s[p..q]) && !IsDigit(s[q])
    ensures GoNum(s, p) == Some(q)
    decreases q - p
  {
    if p < q {
      assert s[p] == s[p..q][0];
      assert s[p + 1..q] == s[p..q][1..];
      DigitsTo(s, p + 1, q);
    }
  }

  lemma DigitsBack(s: string, p: nat, q: nat)
    requires GoNum(s, p) == Some(q)
    ensures p <= q < |s| && AllDigits(s[p..q]) && !IsDigit(s[q])
  {
  }

  /** Scanning a digit and then the rest reads exactly a non-empty run of digits. */
  lemma RunIff(s: string, p: nat, q: nat)
    requires p <= q < |s|
    ensures IsDigit(At(s, p)) && GoNum(s, p + 1) == Some(q) <==> Digits(s[p..q]) && !IsDigit(s[q])
  {
    if Digits(s[p..q]) && !IsDigit(s[q]) {
      assert s[p] == s[p..q][0] && s[p + 1..q] == s[p..q][1..];
      DigitsTo(s, p + 1, q);
    }
    if IsDigit(At(s, p)) && GoNum(s, p + 1) == Some(q) {
      DigitsBack(s, p + 1, q);
      assert s[p..q] == [s[p]] + s[p + 1..q];
    }
  }

  lemma IntegerIff(s: string, p: nat, i: nat)
    requires p < i < |s|
    ensures IntegerEnd(s, p) == Some(i) <==> IntegerLexeme(s[p..i]) && !IsDigit(s[i])
  {
    hide GoNum, IsDigit;
    if IntegerEnd(s, p) == Some(i) {
      IntegerEndIsLexeme(s, p);
    }
    if IntegerLexeme(s[p..i]) && !IsDigit(s[i]) {
      IntegerRead(s, p, i);
    }
  }

  lemma IntegerRead(s: string, p: nat, i: nat)
    requires p < i < |s| && IntegerLexeme(s[p..i]) && !IsDigit(s[i])
    ensures IntegerEnd(s, p) == Some(i)
  {
    hide GoNum;
    var q := if s[p] == '-' then p + 1 else p;
    assert s[p..i][0] == s[p];
    assert s[q..i] == if s[p] == '-' then s[p..i][1..] else s[p..i];
    assert s[q] == s[q..i][0];
    if s[q] != '0' {
      DigitsTo(s, q, i);
    } else {
      assert i == q + 1;
    }
  }

  lemma FractionIff(s: string, i: nat, f: nat)
    requires i <= f < |s|
    ensures FractionEnd(s, i) == Some(f) <==>
            FractionPart(s[i..f]) && (if i == f then s[i] != '.' else !IsDigit(s[f]))
  {
    hide GoNum, IsDigit, Digits;
    if i < f {
      assert s[i..f][0] == s[i] && s[i..f][1..] == s[i + 1..f];
      RunIff(s, i + 1, f);
    }
  }

  lemma ExponentIff(s: string, f: nat, e: nat)
    requires f <= e < |s|
    ensures ExponentEnd(s, f) == Some(e) <==>
            ExponentPart(s[f..e]) && (if f == e then s[f] !in {'e', 'E'} else !IsDigit(s[e]))
  {
    hide GoNum, IsDigit, Digits;
    if f < e {
      var t := s[f..e];
      assert t[0] == s[f] && t[1..] == s[f + 1..e];
      RunIff(s, f + 1, e);
      if f + 1 < e {
        assert t[1] == s[f + 1] && t[2..] == s[f + 2..e];
        RunIff(s, f + 2, e);
      }
    }
  }

  lemma NotDigits(c: char)
    ensures c == '.' || c in {'e', 'E'} || EndsPrimitive(c) ==> !IsDigit(c)
    ensures EndsPrimitive(c) ==> c != '.' && c !in {'e', 'E'}
  {
  }

  /** The number scanner accepts exactly the number lexemes that something ends. */
  lemma NumberIff(s: string, p: nat, e: nat, isReal: bool)
    requires p <= e < |s|
    ensures ParseNumber(s, p) == Some((isReal, e)) <==> EndsPrimitive(s[e]) && NumberLexeme(s[p..e], isReal)
  {
    hide ParseNumber, NumberLexeme;
    if ParseNumber(s, p) == Some((isReal, e)) {
      NumberRead(s, p, e, isReal);
    }
    if EndsPrimitive(s[e]) && NumberLexeme(s[p..e], isReal) {
      NumberWritten(s, p, e, isReal);
    }
  }

  lemma Slices(s: string, p: nat, i: nat, f: nat, e: nat)
    requires p <= i <= f <= e <= |s|
    ensures var t := s[p..e]; t[..i - p] == s[p..i] && t[i - p..f - p] == s[i..f] && t[f - p..] == s[f..e]
  {
    var t := s[p..e];
    forall k | 0 <= k < f - i ensures t[i - p..f - p][k] == s[i..f][k] {
      assert t[i - p + k] == s[p + (i - p + k)];
    }
    assert |t[i - p..f - p]| == |s[i..f]|;
    assert t[i - p..f - p] == s[i..f];
  }

  lemma NumberRead(s: string, p: nat, e: nat, isReal: bool)
    requires p <= e < |s| && ParseNumber(s, p) == Some((isReal, e))
    ensures EndsPrimitive(s[e]) && NumberLexeme(s[p..e], isReal)
  {
    hide IntegerEnd, FractionEnd, ExponentEnd, IntegerLexeme, FractionPart, ExponentPart;
    hide EndsPrimitive, IntValue, IsDigit;
    var i := IntegerEnd(s, p).value;
    var f := FractionEnd(s, i).value;
    IntegerIff(s, p, i);
    FractionIff(s, i, f);
    ExponentIff(s, f, e);
    var t := s[p..e];
    Slices(s, p, i, f, e);
    assert InParts(t, i - p, f - p);
  }

  lemma NumberWritten(s: string, p: nat, e: nat, isReal: bool)
    requires p <= e < |s| && EndsPrimitive(s[e]) && NumberLexeme(s[p..e], isReal)
    ensures ParseNumber(s, p) == Some((isReal, e))
  {
    hide IntegerEnd, FractionEnd, ExponentEnd, IntegerLexeme, FractionPart, ExponentPart;
    hide EndsPrimitive, IntValue, IsDigit;
    var t := s[p..e];
    var i: nat, f: nat :| InParts(t, i, f) && isReal == (i < |t|)
                          && (isReal || -9223372036854775808 <= IntValue(t) <= 9223372036854775807);
    Slices(s, p, p + i, p + f, e);
    PartHeads(s, p + i, p + f, e);
    NotDigits(s[p + i]);
    NotDigits(s[p + f]);
    NotDigits(s[e]);
    IntegerIff(s, p, p + i);
    FractionIff(s, p + i, p + f);
    ExponentIff(s, p + f, e);
  }

  /** What the parts after the integer start with. */
  lemma PartHeads(s: string, i: nat, f: nat, e: nat)
    requires i <= f <= e < |s| && FractionPart(s[i..f]) && ExponentPart(s[f..e])
    ensures i < f ==> s[i] == '.'
    ensures f < e ==> s[f] in {'e', 'E'}
  {
    if i < f { assert s[i..f][0] == s[i]; }
    if f < e { assert s[f..e][0] == s[f]; }
  }
}
