/** Character classes, ASCII case folding and whitespace stripping as the cleanup code uses
    them. The source's regular expressions and string methods are Unicode-aware; this model
    works over ASCII (letters, digits, `_`, and the six ASCII whitespace characters). */
module Text {

  predicate IsLetter(c: char) { 'a' <= c <= 'z' || 'A' <= c <= 'Z' }

  predicate IsDigit(c: char) { '0' <= c <= '9' }

  predicate IsAlnum(c: char) { IsLetter(c) || IsDigit(c) }

  /** The regular-expression class `\w`. */
  predicate IsWordChar(c: char) { IsAlnum(c) || c == '_' }

  /** The regular-expression class `\s`, and what `strip_chars()` removes. */
  predicate IsSpace(c: char) {
    c == ' ' || c == '\t' || c == '\n' || c == '\r' || c as int == 0x0B || c as int == 0x0C
  }

  /** What Python's `str.strip()` removes: `\s` plus the four separator controls 0x1C-0x1F. */
  predicate IsPySpace(c: char) {
    IsSpace(c) || 0x1C <= c as int <= 0x1F
  }

  function Lower(c: char): (d: char)
    ensures IsWordChar(d) == IsWordChar(c)
    ensures IsAlnum(d) == IsAlnum(c)
  {
    if 'A' <= c <= 'Z' then (c as int + 32) as char else c
  }

  function Upper(c: char): (d: char)
    ensures Lower(d) == Lower(c)
    ensures IsAlnum(d) == IsAlnum(c)
  {
    if 'a' <= c <= 'z' then (c as int - 32) as char else c
  }

  /** `lit` occurs at position `i` of `s`, ignoring ASCII case (false when it would run past
      the end). */
  predicate CiAt(s: string, i: nat, lit: string) {
    i + |lit| <= |s| && forall k :: 0 <= k < |lit| ==> Lower(s[i + k]) == Lower(lit[k])
  }

  /** The regular-expression assertion `\b`: exactly one side of position `i` is a word
      character (outside the string counts as a non-word character). */
  predicate IsBoundary(s: string, i: nat)
    requires i <= |s|
  {
    (i > 0 && IsWordChar(s[i - 1])) != (i < |s| && IsWordChar(s[i]))
  }

  /** Two strings that differ at most in ASCII case. */
  predicate CaseEquivalent(a: string, b: string) {
    |a| == |b| && forall k :: 0 <= k < |a| ==> Lower(a[k]) == Lower(b[k])
  }

  lemma CiAtIsCaseEquivalent(s: string, i: nat, lit: string)
    ensures CiAt(s, i, lit) <==> i + |lit| <= |s| && CaseEquivalent(s[i..i + |lit|], lit)
  {
    if i + |lit| <= |s| {
      var window := s[i..i + |lit|];
      forall k | 0 <= k < |lit| ensures window[k] == s[i + k] { }
    }
  }

  // ---------------------------------------------------------------------------------------
  // Stripping

  /** The number of leading characters of `s` that satisfy `ws`. */
  function LeadingCount(s: string, ws: char -> bool): (n: nat)
    ensures n <= |s|
    ensures forall k :: 0 <= k < n ==> ws(s[k])
    ensures n < |s| ==> !ws(s[n])
  {
    if s == [] || !ws(s[0]) then 0 else 1 + LeadingCount(s[1..], ws)
  }

  /** The number of trailing characters of `s` that satisfy `ws`. */
  function TrailingCount(s: string, ws: char -> bool): (n: nat)
    ensures n <= |s|
    ensures forall k :: |s| - n <= k < |s| ==> ws(s[k])
    ensures n < |s| ==> !ws(s[|s| - 1 - n])
  {
    if s == [] || !ws(s[|s| - 1]) then 0 else 1 + TrailingCount(s[..|s| - 1], ws)
  }

  /** `s` without its leading and trailing characters satisfying `ws`. */
  function StripWith(s: string, ws: char -> bool): (r: string)
    ensures exists a, b :: 0 <= a <= b <= |s| && r == s[a..b]
              && (forall k :: 0 <= k < a ==> ws(s[k]))
              && (forall k :: b <= k < |s| ==> ws(s[k]))
    ensures r != [] ==> !ws(r[0]) && !ws(r[|r| - 1])
    ensures r == [] <==> forall k :: 0 <= k < |s| ==> ws(s[k])
  {
    var a := LeadingCount(s, ws);
    var rest := s[a..];
    var t := TrailingCount(rest, ws);
    assert rest[..|rest| - t] == s[a..|s| - t];
    s[a..|s| - t]
  }

  /** A string that neither starts nor ends with a stripped character is kept whole. */
  lemma StripKeepsClean(s: string, ws: char -> bool)
    requires s != [] && !ws(s[0]) && !ws(s[|s| - 1])
    ensures StripWith(s, ws) == s
  {
    assert LeadingCount(s, ws) == 0;
    assert s[0..] == s;
    assert TrailingCount(s, ws) == 0;
  }

  /** Rust's `str::trim`, which `strip_chars()` uses. */
  function Strip(s: string): string { StripWith(s, IsSpace) }

  /** Python's `str.strip()`. */
  function PyStrip(s: string): string { StripWith(s, IsPySpace) }

  /** `s` has no leading and no trailing space. */
  predicate Trimmed(s: string) {
    s != [] ==> !IsSpace(s[0]) && !IsSpace(s[|s| - 1])
  }

  /** `s` has no two adjacent space characters. */
  predicate NoDoubleSpace(s: string) {
    forall k :: 0 <= k < |s| - 1 ==> !(IsSpace(s[k]) && IsSpace(s[k + 1]))
  }
}
