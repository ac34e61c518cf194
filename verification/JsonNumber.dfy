/** Numbers: their grammar, and the range check on integers, which the parser
    does by comparing digit strings instead of computing the value. */
module JsonNumber {
  import opened Options
  import opened JsonText

  // ----- values of digit strings

  function Pow10(n: nat): (r: nat)
    ensures r > 0
  {
    if n == 0 then 1 else 10 * Pow10(n - 1)
  }

  function DigitOf(c: char): int { c as int - '0' as int }

  ghost predicate AllDigits(d: string) { forall i :: 0 <= i < |d| ==> IsDigit(d[i]) }

  /** The value of a string of decimal digits. */
  function DigitsValue(d: string): int {
    if d == "" then 0 else 10 * DigitsValue(d[..|d| - 1]) + DigitOf(d[|d| - 1])
  }

  /** The value of an integer lexeme. */
  function IntValue(lexeme: string): int {
    if lexeme != "" && lexeme[0] == '-' then -DigitsValue(lexeme[1..]) else DigitsValue(lexeme)
  }

  const INT64_MIN: int := -9223372036854775808
  const INT64_MAX: int := 9223372036854775807

  const MIN_TEXT: string := "-9223372036854775808"
  const MAX_TEXT: string := "9223372036854775807"

  predicate InRange(lexeme: string) { INT64_MIN <= IntValue(lexeme) <= INT64_MAX }

  /** The sign of strcmp(a, b) on C strings: negative, zero or positive. */
  function StrCmp(a: string, b: string): int {
    if a == "" then (if b == "" then 0 else -1)
    else if b == "" then 1
    else if a[0] != b[0] then (if a[0] < b[0] then -1 else 1)
    else StrCmp(a[1..], b[1..])
  }

  lemma {:induction false} DigitsValueBounds(d: string)
    requires AllDigits(d)
    ensures 0 <= DigitsValue(d) < Pow10(|d|)
    decreases |d|
  {
    if d != "" { DigitsValueBounds(d[..|d| - 1]); }
  }

  /** Reading the first digit instead of the last. */
  lemma {:induction false} DigitsValueCons(d: string)
    requires d != ""
    ensures DigitsValue(d) == DigitOf(d[0]) * Pow10(|d| - 1) + DigitsValue(d[1..])
    decreases |d|
  {
    if |d| > 1 {
      var init, last := d[..|d| - 1], DigitOf(d[|d| - 1]);
      DigitsValueCons(init);
      assert init[1..] == d[1..][..|d| - 2];
      assert d[1..][|d| - 2] == d[|d| - 1];
      assert Pow10(|d| - 1) == 10 * Pow10(|d| - 2);
      Scale(DigitOf(d[0]), Pow10(|d| - 2));
    } else {
      assert d[..0] == "" && d[1..] == "";
    }
  }

  lemma Scale(a: int, p: int)
    ensures a * (10 * p) == 10 * (a * p)
  {
  }

  /** On digit strings of equal length, comparing the strings compares the
      values. */
  lemma {:induction false} StrCmpComparesValues(a: string, b: string)
    requires AllDigits(a) && AllDigits(b) && |a| == |b|
    ensures StrCmp(a, b) < 0 <==> DigitsValue(a) < DigitsValue(b)
    ensures StrCmp(a, b) == 0 <==> a == b
    decreases |a|
  {
    if a != "" {
      DigitsValueCons(a);
      DigitsValueCons(b);
      DigitsValueBounds(a[1..]);
      DigitsValueBounds(b[1..]);
      if a[0] == b[0] {
        StrCmpComparesValues(a[1..], b[1..]);
        assert a == [a[0]] + a[1..] && b == [b[0]] + b[1..];
      } else if a[0] < b[0] {
        LeadingDigit(DigitOf(a[0]), DigitOf(b[0]), Pow10(|a| - 1));
      } else {
        LeadingDigit(DigitOf(b[0]), DigitOf(a[0]), Pow10(|a| - 1));
      }
    }
  }

  lemma LeadingDigit(x: int, y: int, p: nat)
    requires x < y
    ensures x * p + p <= y * p
  {
    var k := y - x - 1;
    assert y * p == x * p + p + k * p;
    NonNegProduct(k, p);
  }

  lemma {:induction false} NonNegProduct(k: nat, p: nat)
    ensures k * p >= 0
  {
  }

  /** A longer number without a leading zero is larger. */
  lemma LongerIsLarger(d: string, n: nat)
    requires AllDigits(d) && d != "" && d[0] != '0' && n < |d|
    ensures DigitsValue(d) >= Pow10(n)
  {
    DigitsValueCons(d);
    DigitsValueBounds(d[1..]);
    LeadingDigit(0, DigitOf(d[0]), Pow10(|d| - 1));
    Pow10Monotone(n, |d| - 1);
  }

  lemma {:induction false} Pow10Monotone(a: nat, b: nat)
    requires a <= b
    ensures Pow10(a) <= Pow10(b)
    decreases b - a
  {
    if a < b { Pow10Monotone(a + 1, b); }
  }

  lemma Thresholds()
    ensures AllDigits(MAX_TEXT) && AllDigits(MIN_TEXT[1..]) && |MAX_TEXT| == 19 && |MIN_TEXT| == 20
    ensures DigitsValue(MAX_TEXT) == INT64_MAX && DigitsValue(MIN_TEXT[1..]) == -INT64_MIN
  {
    HeadOfTen();
    var m := "9223372036854775808";
    assert MIN_TEXT[1..] == m;
    assert m[..18] == "922337203685477580" && MAX_TEXT[..18] == "922337203685477580";
  }

  lemma HeadOfTen()
    ensures DigitsValue("922337203685477580") == 922337203685477580
  {
    assert "9223372036"[..5] == "92233";
    assert DigitsValue("92233") == 92233 by { FiveDigits('9', '2', '2', '3', '3'); }
    DigitsAppend("92233", "72036");
    FiveDigits('7', '2', '0', '3', '6');
    assert "92233" + "72036" == "9223372036";
    DigitsAppend("9223372036", "85477");
    FiveDigits('8', '5', '4', '7', '7');
    assert "9223372036" + "85477" == "922337203685477";
    DigitsAppend("922337203685477", "580");
    ThreeDigits('5', '8', '0');
    assert "922337203685477" + "580" == "922337203685477580";
    assert Pow10(5) == 100000 && Pow10(3) == 1000;
  }

  lemma ThreeDigits(a: char, b: char, c: char)
    ensures DigitsValue([a, b, c]) == 100 * DigitOf(a) + 10 * DigitOf(b) + DigitOf(c)
  {
    assert [a, b, c][..2] == [a, b] && [a, b][..1] == [a] && [a][..0] == "";
    assert DigitsValue([a]) == DigitOf(a);
    assert DigitsValue([a, b]) == 10 * DigitOf(a) + DigitOf(b);
  }

  lemma FiveDigits(a: char, b: char, c: char, d: char, e: char)
    ensures DigitsValue([a, b, c, d, e])
         == 10000 * DigitOf(a) + 1000 * DigitOf(b) + 100 * DigitOf(c) + 10 * DigitOf(d) + DigitOf(e)
  {
    ThreeDigits(a, b, c);
    assert [a, b, c, d, e][..4] == [a, b, c, d] && [a, b, c, d][..3] == [a, b, c];
  }

  lemma {:induction false} DigitsAppend(a: string, b: string)
    ensures DigitsValue(a + b) == DigitsValue(a) * Pow10(|b|) + DigitsValue(b)
    decreases |b|
  {
    if b == "" {
      assert a + b == a;
    } else {
      var init := b[..|b| - 1];
      DigitsAppend(a, init);
      assert (a + b)[..|a + b| - 1] == a + init;
      Scale(DigitsValue(a), Pow10(|init|));
    }
  }

  /** An integer lexeme: an optional minus, then digits without a leading zero. */
  ghost predicate IntegerLexeme(t: string) {
    var d := if t != "" && t[0] == '-' then t[1..] else t;
    AllDigits(d) && d != "" && (d[0] == '0' ==> |d| == 1)
  }

  function Threshold(t: string): string { if t != "" && t[0] == '-' then MIN_TEXT else MAX_TEXT }

  /** What the parser checks: fewer digits than the limit, or as many and not
      beyond it as a string. */
  predicate PassesTextCheck(t: string) {
    |t| < |Threshold(t)| || (|t| == |Threshold(t)| && !(StrCmp(Threshold(t), t) < 0))
  }

  /** The text comparison decides exactly whether the value fits 64 bits. */
  lemma TextCheckIsRangeCheck(t: string)
    requires IntegerLexeme(t)
    ensures PassesTextCheck(t) <==> InRange(t)
  {
    hide DigitsValue, Pow10;
    var neg := t[0] == '-';
    var d := if neg then t[1..] else t;
    Thresholds();
    DigitsValueBounds(d);
    assert Pow10(18) == 1000000000000000000 by { TenToThe18(); }
    if |d| > 19 {
      LongerIsLarger(d, 19);
      TenToThe18();
    } else if |d| < 19 {
      Pow10Monotone(|d|, 18);
    } else if neg {
      StrCmpComparesValues(MIN_TEXT[1..], d);
      assert StrCmp(MIN_TEXT, t) == StrCmp(MIN_TEXT[1..], d);
    } else {
      StrCmpComparesValues(MAX_TEXT, d);
    }
  }

  lemma TenToThe18()
    ensures Pow10(18) == 1000000000000000000 && Pow10(19) == 10000000000000000000
  {
    assert Pow10(6) == 1000000;
    assert Pow10(12) == 1000000000000;
  }

  // ----- the grammar

  /** After the sign and the integer part. */
  function IntegerEnd(s: string, p: nat): (r: Option<nat>)
    ensures r.Some? ==> p < r.value <= |s|
  {
    var q := if At(s, p) == '-' then p + 1 else p;
    if !IsDigit(At(s, q)) then None
    else if At(s, q) != '0' then GoNum(s, q)
    else if IsDigit(At(s, q + 1)) then None
    else Some(q + 1)
  }

  function FractionEnd(s: string, p: nat): (r: Option<nat>)
    ensures r.Some? ==> p <= r.value && (p <= |s| ==> r.value <= |s|)
  {
    if At(s, p) != '.' then Some(p)
    else if IsDigit(At(s, p + 1)) then GoNum(s, p + 2)
    else None
  }

  function ExponentEnd(s: string, p: nat): (r: Option<nat>)
    ensures r.Some? ==> p <= r.value && (p <= |s| ==> r.value <= |s|)
  {
    if At(s, p) != 'e' && At(s, p) != 'E' then Some(p)
    else
      var q := if At(s, p + 1) == '-' || At(s, p + 1) == '+' then p + 2 else p + 1;
      if IsDigit(At(s, q)) then GoNum(s, q + 1) else None
  }

  /** A number at p: whether it has a fraction or an exponent, and its end. It
      must be followed by something that ends a primitive, and an integer must
      fit 64 bits. */
  function ParseNumber(s: string, p: nat): (r: Option<(bool, nat)>)
    ensures r.Some? ==> p < r.value.1 < |s| && EndsPrimitive(s[r.value.1])
  {
    var i := IntegerEnd(s, p);
    if i.None? then None else
    var f := FractionEnd(s, i.value);
    if f.None? then None else
    var e := ExponentEnd(s, f.value);
    if e.None? || !EndsPrimitive(At(s, e.value)) then None
    else if e.value > i.value then Some((true, e.value))
    else if InRange(s[p..e.value]) then Some((false, e.value))
    else None
  }

  lemma IntegerEndIsLexeme(s: string, p: nat)
    requires IntegerEnd(s, p).Some?
    ensures IntegerLexeme(s[p..IntegerEnd(s, p).value])
  {
    var e := IntegerEnd(s, p).value;
    var q := if At(s, p) == '-' then p + 1 else p;
    var t := s[p..e];
    var d := if t[0] == '-' then t[1..] else t;
    assert d == s[q..e];
    assert s[q] != '-' && d[0] == s[q];
    forall i | 0 <= i < |d| ensures IsDigit(d[i]) {
      assert d[i] == s[q + i];
    }
  }

  // ----- the parser's own steps

  /** Compares a limit with the NUL-terminated text at p, as strcmp does. */
  method CompareText(limit: string, buf: array<char>, p: nat, ghost t: string) returns (c: int)
    requires CString(limit) && p + |t| < buf.Length && buf[p..p + |t|] == t && buf[p + |t|] == NUL && CString(t)
    ensures c == StrCmp(limit, t)
  {
    var i := 0;
    assert limit[0..] == limit && t[0..] == t;
    while i < |limit| && buf[p + i] == limit[i]
      invariant 0 <= i <= |limit| && i <= |t| && StrCmp(limit, t) == StrCmp(limit[i..], t[i..])
      decreases |limit| - i
    {
      assert t[i] == buf[p..p + |t|][i];
      assert limit[i..][1..] == limit[i + 1..] && t[i..][1..] == t[i + 1..];
      i := i + 1;
    }
    assert i < |t| ==> t[i] == buf[p..p + |t|][i];
    if i == |limit| {
      return if buf[p + i] == NUL then 0 else -1;
    }
    return if buf[p + i] == NUL then 1 else if limit[i] < buf[p + i] then -1 else 1;
  }

  /** The range check on the integer lexeme at [p, e), done with a temporary
      terminator at e that is put back when the check passes. */
  method CheckRange(buf: array<char>, p: nat, e: nat, ghost s: string) returns (ok: bool)
    requires Intact(buf, s, p) && p < e < |s| && IntegerLexeme(s[p..e])
    modifies buf
    ensures ok == InRange(s[p..e])
    ensures ok ==> forall j :: 0 <= j < buf.Length ==> buf[j] == old(buf[j])
    ensures forall j :: 0 <= j < p ==> buf[j] == old(buf[j])
  {
    hide StrCmp, InRange, IntegerLexeme;
    ghost var t := s[p..e];
    assert t[0] == buf[p];
    TextCheckIsRangeCheck(t);
    var negative := buf[p] == '-';
    var maxDigits := if negative then |MIN_TEXT| else |MAX_TEXT|;
    var len := e - p;
    if len > maxDigits {
      return false;
    }
    if len == maxDigits {
      var tmp := buf[e];
      buf[e] := NUL;
      assert buf[p..p + |t|] == t;
      var c := CompareText(if negative then MIN_TEXT else MAX_TEXT, buf, p, t);
      if c < 0 {
        return false;
      }
      buf[e] := tmp;
    }
    return true;
  }

  method ScanExponent(buf: array<char>, p: nat, ghost s: string) returns (r: Option<nat>)
    requires Intact(buf, s, p) && p <= |s|
    ensures r == ExponentEnd(s, p)
  {
    var q := p;
    if buf[q] == 'e' || buf[q] == 'E' {
      q := q + 1;
      if buf[q] == '-' || buf[q] == '+' {
        q := q + 1;
      }
      if !IsDigit(buf[q]) {
        return None;
      }
      r := SkipDigits(buf, q + 1, s);
    } else {
      return Some(p);
    }
  }

  method ScanFraction(buf: array<char>, p: nat, ghost s: string) returns (r: Option<nat>)
    requires Intact(buf, s, p) && p <= |s|
    ensures r == FractionEnd(s, p)
  {
    if buf[p] == '.' {
      if !IsDigit(buf[p + 1]) {
        return None;
      }
      r := SkipDigits(buf, p + 2, s);
    } else {
      return Some(p);
    }
  }

  method ScanInteger(buf: array<char>, p: nat, ghost s: string) returns (r: Option<nat>)
    requires Intact(buf, s, p) && p <= |s|
    ensures r == IntegerEnd(s, p)
  {
    var q := p;
    if buf[q] == '-' {
      q := q + 1;
    }
    if !IsDigit(buf[q]) {
      return None;
    }
    if buf[q] != '0' {
      r := SkipDigits(buf, q, s);
    } else if IsDigit(buf[q + 1]) {
      return None;
    } else {
      return Some(q + 1);
    }
  }

  /** Scans a number; the buffer is as before whenever it succeeds. */
  method NumValue(buf: array<char>, p: nat, ghost s: string) returns (r: Option<(bool, nat)>)
    requires Intact(buf, s, p) && p <= |s|
    modifies buf
    ensures r == ParseNumber(s, p)
    ensures r.Some? ==> forall j :: 0 <= j < buf.Length ==> buf[j] == old(buf[j])
    ensures forall j :: 0 <= j < p ==> buf[j] == old(buf[j])
  {
    hide InRange, IntegerLexeme, IntegerEnd, FractionEnd, ExponentEnd, EndsPrimitive;
    var i := ScanInteger(buf, p, s);
    if i.None? {
      return None;
    }
    var f := ScanFraction(buf, i.value, s);
    if f.None? {
      return None;
    }
    var e := ScanExponent(buf, f.value, s);
    if e.None? {
      return None;
    }
    if !EndsPrimitive(buf[e.value]) {
      return None;
    }
    NulEndsNothing();
    if e.value == i.value {
      IntegerEndIsLexeme(s, p);
      var ok := CheckRange(buf, p, e.value, s);
      if !ok {
        return None;
      }
      return Some((false, e.value));
    }
    return Some((true, e.value));
  }

  lemma NulEndsNothing()
    ensures !EndsPrimitive(NUL)
  {
  }
}
