/** Character classes, strings and literals of the JSON text the parser reads.

    A C string is a `string` without NUL: reading at or past its end yields the
    terminator. Positions are indices from the start of the text. */
module JsonText {
  import opened Options

  const NUL: char := '\0'
  const BACKSPACE: char := '\U{08}'
  const FORMFEED: char := '\U{0C}'

  /** The character a C pointer into the text sees. */
  function At(s: string, p: nat): char { if p < |s| then s[p] else NUL }

  ghost predicate CString(s: string) { forall i :: 0 <= i < |s| ==> s[i] != NUL }

  predicate IsBlank(c: char) { c in {' ', '\n', '\r', '\t', FORMFEED} }

  predicate IsDigit(c: char) { '0' <= c <= '9' }

  predicate IsHex(c: char) { '0' <= c <= '9' || 'a' <= c <= 'f' || 'A' <= c <= 'F' }

  predicate EndsBlock(c: char) { c == '}' || c == ']' }

  predicate EndsPrimitive(c: char) { c == ',' || IsBlank(c) || EndsBlock(c) }

  /** The first position from p that is not blank; none before the end. */
  function GoBlank(s: string, p: nat): (r: Option<nat>)
    ensures r.Some? ==> p <= r.value < |s| && !IsBlank(s[r.value])
    decreases |s| - p
  {
    if p >= |s| then None else if IsBlank(s[p]) then GoBlank(s, p + 1) else Some(p)
  }

  /** The first position from p that is not a digit; none before the end. */
  function GoNum(s: string, p: nat): (r: Option<nat>)
    ensures r.Some? ==> p <= r.value < |s| && !IsDigit(s[r.value])
    ensures r.Some? ==> forall j :: p <= j < r.value ==> IsDigit(s[j])
    decreases |s| - p
  {
    if p >= |s| then None else if IsDigit(s[p]) then GoNum(s, p + 1) else Some(p)
  }

  /** The character a short escape stands for. */
  function GetEscape(c: char): Option<char> {
    match c
    case '\"' => Some('\"')
    case '\\' => Some('\\')
    case '/' => Some('/')
    case 'b' => Some(BACKSPACE)
    case 'f' => Some(FORMFEED)
    case 'n' => Some('\n')
    case 'r' => Some('\r')
    case 't' => Some('\t')
    case _ => None
  }

  /** The first n characters from p are hexadecimal digits. */
  predicate HexRun(s: string, p: nat, n: nat) {
    n == 0 || (HexRun(s, p, n - 1) && IsHex(At(s, p + n - 1)))
  }

  /** One decoded character and the position after what it was written as. A
      four-digit Unicode escape decodes to a question mark. */
  function DecodeOne(s: string, p: nat): (r: Option<(char, nat)>)
    requires CString(s) && p < |s| && s[p] >= ' '
    ensures r.Some? ==> p < r.value.1 <= |s| && r.value.0 != NUL
  {
    if s[p] != '\\' then Some((s[p], p + 1))
    else if At(s, p + 1) == 'u' then
      if HexRun(s, p + 2, 4) then
        HexRunInside(s, p + 2, 4);
        Some(('?', p + 6))
      else None
    else
      var e := GetEscape(At(s, p + 1));
      if e.Some? then Some((e.value, p + 2)) else None
  }

  lemma {:induction false} HexRunInside(s: string, p: nat, n: nat)
    requires HexRun(s, p, n) && n > 0
    ensures p + n <= |s|
  {
  }

  /** The decoded string that starts at p and the position after its closing
      quote; none when a control character or the end comes first. */
  function ParseString(s: string, p: nat): (r: Option<(string, nat)>)
    requires CString(s)
    ensures r.Some? ==> p + |r.value.0| < r.value.1 <= |s|
    ensures r.Some? ==> CString(r.value.0)
    decreases |s| - p
  {
    if At(s, p) < ' ' then None
    else if s[p] == '\"' then Some(("", p + 1))
    else
      var d := DecodeOne(s, p);
      if d.Some? then Prepend(d.value.0, ParseString(s, d.value.1)) else None
  }

  function Prepend(c: char, r: Option<(string, nat)>): Option<(string, nat)> {
    if r.Some? then Some(([c] + r.value.0, r.value.1)) else None
  }

  /** Prefixes an already decoded part. */
  function After(done: string, r: Option<(string, nat)>): Option<(string, nat)> {
    if r.Some? then Some((done + r.value.0, r.value.1)) else None
  }

  lemma AfterPrepend(done: string, c: char, r: Option<(string, nat)>)
    ensures After(done, Prepend(c, r)) == After(done + [c], r)
  {
    if r.Some? { assert done + ([c] + r.value.0) == (done + [c]) + r.value.0; }
  }

  // ----- the buffer the parser rewrites in place

  /** From p on the buffer still holds the original text and its terminator. */
  ghost predicate Intact(buf: array<char>, s: string, p: nat)
    reads buf
  {
    && |s| < buf.Length && CString(s) && buf[|s|] == NUL
    && forall j :: p <= j < |s| ==> buf[j] == s[j]
  }

  /** A NUL-terminated copy of the text, inside the first |v| characters. */
  ghost predicate TextAt(v: string, at: nat, text: string) {
    && at + |text| < |v|
    && v[at..at + |text|] == text && v[at + |text|] == NUL
    && CString(text)
  }

  method SkipBlanks(buf: array<char>, p: nat, ghost s: string) returns (r: Option<nat>)
    requires Intact(buf, s, p) && p <= |s|
    ensures r == GoBlank(s, p)
  {
    var q := p;
    while buf[q] != NUL
      invariant p <= q <= |s| && GoBlank(s, p) == GoBlank(s, q)
      decreases |s| - q
    {
      if !IsBlank(buf[q]) {
        return Some(q);
      }
      q := q + 1;
    }
    return None;
  }

  method SkipDigits(buf: array<char>, p: nat, ghost s: string) returns (r: Option<nat>)
    requires Intact(buf, s, p) && p <= |s|
    ensures r == GoNum(s, p)
  {
    var q := p;
    while buf[q] != NUL
      invariant p <= q <= |s| && GoNum(s, p) == GoNum(s, q)
      decreases |s| - q
    {
      if !IsDigit(buf[q]) {
        return Some(q);
      }
      q := q + 1;
    }
    return None;
  }

  /** Decodes the string at `str` over itself. The write position never passes
      the read position, nothing before `str` or after the closing quote is
      touched, and nothing past the terminator is read. */
  method ParseStringInPlace(buf: array<char>, str: nat, ghost s: string) returns (r: Option<nat>)
    requires Intact(buf, s, str) && str <= |s|
    modifies buf
    ensures r == if ParseString(s, str).Some? then Some(ParseString(s, str).value.1) else None
    ensures r.Some? ==> TextAt(buf[..r.value], str, ParseString(s, str).value.0)
    ensures r.Some? ==> Intact(buf, s, r.value)
    ensures forall j :: 0 <= j < str ==> buf[j] == old(buf[j])
  {
    hide DecodeOne;
    var head, tail := str, str;
    AfterNothing(ParseString(s, str));
    assert buf[str..tail] == "";
    while buf[head] >= ' '
      invariant str <= tail <= head <= |s| && Intact(buf, s, head)
      invariant ParseString(s, str) == After(buf[str..tail], ParseString(s, head))
      invariant CString(buf[str..tail])
      invariant forall j :: 0 <= j < str ==> buf[j] == old(buf[j])
      decreases |s| - head
    {
      ghost var done := buf[str..tail];
      if buf[head] == '\"' {
        buf[tail] := NUL;
        head := head + 1;
        assert buf[..head][str..tail] == done;
        return Some(head);
      }
      var d := DecodeHere(buf, head, s);
      if d.None? {
        return None;
      }
      buf[tail] := d.value.0;
      AfterPrepend(done, d.value.0, ParseString(s, d.value.1));
      assert buf[str..tail + 1] == done + [d.value.0];
      head, tail := d.value.1, tail + 1;
    }
    return None;
  }

  lemma AfterNothing(r: Option<(string, nat)>)
    ensures After("", r) == r
  {
    if r.Some? { assert "" + r.value.0 == r.value.0; }
  }

  /** Reads one character of a string body, escaped or plain. */
  method DecodeHere(buf: array<char>, head: nat, ghost s: string) returns (r: Option<(char, nat)>)
    requires Intact(buf, s, head) && head < |s| && buf[head] >= ' '
    ensures r == DecodeOne(s, head)
  {
    if buf[head] != '\\' {
      return Some((buf[head], head + 1));
    }
    if buf[head + 1] == 'u' {
      var hex := CheckHex(buf, head + 2, s);
      if !hex {
        return None;
      }
      return Some(('?', head + 6));
    }
    var esc := GetEscape(buf[head + 1]);
    if esc.None? {
      return None;
    }
    return Some((esc.value, head + 2));
  }

  /** Whether four hexadecimal digits start at p; stops at the first that is not. */
  method CheckHex(buf: array<char>, p: nat, ghost s: string) returns (ok: bool)
    requires Intact(buf, s, p) && p <= |s|
    ensures ok == HexRun(s, p, 4)
  {
    hide IsHex;
    var i := 0;
    while i < 4
      invariant 0 <= i <= 4 && p + i <= |s| && HexRun(s, p, i)
    {
      if !IsHex(buf[p + i]) {
        NotHex(s, p, i, 4);
        return false;
      }
      NulNotHex();
      i := i + 1;
    }
    return true;
  }

  lemma NulNotHex()
    ensures !IsHex(NUL)
  {
  }

  lemma {:induction false} NotHex(s: string, p: nat, i: nat, n: nat)
    requires i < n && !IsHex(At(s, p + i))
    ensures !HexRun(s, p, n)
    decreases n
  {
    if i < n - 1 { NotHex(s, p, i, n - 1); }
  }
}
