/** The regular-expression replacements of the Application cleanup, each pattern given by a
    matcher that returns the length of the match a leftmost-first regex engine picks at a
    position. `ReplaceAll` scans left to right without overlap, as `str.replace_all` does; a
    matcher always inspects the ORIGINAL string, so `\b` sees characters that an earlier
    match consumed. */
module Rewrite {
  import opened Options
  import opened Text

  /** The patterns of the cleanup: a whole word, or one of the other regular expressions. */
  datatype Pattern =
    | Word(word: string)       // `(?i)\bword\b`
    | Shape(matcher: Matcher)

  datatype Matcher =
    | Lit(text: string)        // a literal, case-sensitive (`literal=True`)
    | Spaces                   // `\s+`
    | AntiStatic               // `(?i)\b(Anti.?static)\b`
    | ElectricalConductive     // `(?i)\b(electrical.conductive)\b`
    | Ther                     // `(?i)\b(therm?)\b`
    | ThermConductive          // `(?i)\b(therm\w*.conductive)\b`
    | Matl                     // `(?i)\b(matl|mtl)s?\.?\b`
    | Wrapping                 // `(?i)\bWrap+i[nm]g\b`
    | ThreeD                   // `3.?[Dd]`
    | ORing                    // `(?i)\b[0O].?ring\b`

  /** One step of the cleanup: replace every match of `pattern` with `rep`. */
  datatype Rule = Rule(pattern: Pattern, rep: string)

  /** The regular-expression `.`: any character except a newline. */
  predicate AnyAt(s: string, i: nat) { i < |s| && s[i] != '\n' }

  /** `w` occurs at `i` as a whole word, ignoring case. */
  predicate WordAt(s: string, i: nat, w: string) {
    && |w| > 0
    && i + |w| <= |s|
    && IsBoundary(s, i)
    && CiAt(s, i, w)
    && IsBoundary(s, i + |w|)
  }

  /** The length of the run of characters satisfying `p` that starts at `i`. */
  function RunLength(s: string, i: nat, p: char -> bool): (n: nat)
    requires i <= |s|
    ensures i + n <= |s|
    ensures forall k :: i <= k < i + n ==> p(s[k])
    ensures i + n < |s| ==> !p(s[i + n])
    decreases |s| - i
  {
    if i < |s| && p(s[i]) then 1 + RunLength(s, i + 1, p) else 0
  }

  predicate IsLowerP(c: char) { Lower(c) == 'p' }

  /** `.conductive\b` at `q`: any character but a newline, then "conductive" in any case,
      then a word boundary. */
  predicate ConductiveAt(s: string, q: nat) {
    AnyAt(s, q) && CiAt(s, q + 1, "conductive") && IsBoundary(s, q + 11)
  }

  /** `therm\w*.conductive` after the `therm` at `i`: the greedy `\w*` gives back one
      character at a time, so the longest run `m <= n` after which `.conductive\b` follows
      wins, and there is no match when no run lets it follow. */
  function ThermTail(s: string, i: nat, n: nat): (r: Option<nat>)
    requires i + 5 + n <= |s|
    ensures r.Some? ==> 16 <= r.value <= 16 + n && i + r.value <= |s|
    ensures r.Some? ==> ConductiveAt(s, i + r.value - 11)
    ensures r.Some? ==> forall q :: i + r.value - 11 < q <= i + 5 + n ==> !ConductiveAt(s, q)
    ensures r.None? ==> forall q :: i + 5 <= q <= i + 5 + n ==> !ConductiveAt(s, q)
    decreases n
  {
    var q := i + 5 + n;
    if ConductiveAt(s, q) then Some(16 + n)
    else if n == 0 then None
    else ThermTail(s, i, n - 1)
  }

  /** The `k` characters at `p` spell `s?\.?` and a word boundary follows them. */
  predicate MatlSuffix(s: string, p: nat, k: nat) {
    && p + k <= |s|
    && (k == 0
        || (k == 1 && (Lower(s[p]) == 's' || s[p] == '.'))
        || (k == 2 && Lower(s[p]) == 's' && s[p + 1] == '.'))
    && IsBoundary(s, p + k)
  }

  /** `s?\.?\b` at `p` after `matl`/`mtl`. The engine tries `s` before no `s` and `.` before
      no `.`, and the two one-character spellings exclude each other, so the longest suffix
      that fits wins. */
  function MatlTail(s: string, p: nat): (r: Option<nat>)
    requires p <= |s|
    ensures r.Some? ==> r.value <= 2 && MatlSuffix(s, p, r.value)
    ensures r.Some? ==> forall k :: r.value < k <= 2 ==> !MatlSuffix(s, p, k)
    ensures r.None? <==> forall k :: 0 <= k <= 2 ==> !MatlSuffix(s, p, k)
  {
    if p < |s| && Lower(s[p]) == 's' && p + 1 < |s| && s[p + 1] == '.' && IsBoundary(s, p + 2)
    then Some(2)
    else if p < |s| && Lower(s[p]) == 's' && IsBoundary(s, p + 1) then Some(1)
    else if p < |s| && s[p] == '.' && IsBoundary(s, p + 1) then Some(1)
    else if IsBoundary(s, p) then
      assert MatlSuffix(s, p, 0);
      Some(0)
    else None
  }

  predicate IsD(c: char) { c == 'D' || c == 'd' }

  /** The length of the match of `p` that the engine reports at `i`, if any. */
  function MatchAt(p: Matcher, s: string, i: nat): (r: Option<nat>)
    requires i <= |s|
    ensures r.Some? ==> 0 < r.value && i + r.value <= |s|
  {
    match p
    case Lit(t) =>
      if |t| > 0 && i + |t| <= |s| && s[i..i + |t|] == t then Some(|t|) else None
    case Spaces =>
      if i < |s| && IsSpace(s[i]) then Some(RunLength(s, i, IsSpace)) else None
    case AntiStatic =>
      if !(IsBoundary(s, i) && CiAt(s, i, "anti")) then None
      else if AnyAt(s, i + 4) && CiAt(s, i + 5, "static") && IsBoundary(s, i + 11) then Some(11)
      else if CiAt(s, i + 4, "static") && IsBoundary(s, i + 10) then Some(10)
      else None
    case ElectricalConductive =>
      if IsBoundary(s, i) && CiAt(s, i, "electrical") && AnyAt(s, i + 10)
         && CiAt(s, i + 11, "conductive") && IsBoundary(s, i + 21)
      then Some(21) else None
    case Ther =>
      if !(IsBoundary(s, i) && CiAt(s, i, "ther")) then None
      else if CiAt(s, i + 4, "m") && IsBoundary(s, i + 5) then Some(5)
      else if IsBoundary(s, i + 4) then Some(4)
      else None
    case ThermConductive =>
      if IsBoundary(s, i) && CiAt(s, i, "therm")
      then ThermTail(s, i, RunLength(s, i + 5, IsWordChar))
      else None
    case Matl =>
      if !IsBoundary(s, i) then None
      else if CiAt(s, i, "matl") then
        (match MatlTail(s, i + 4) case Some(n) => Some(4 + n) case None => None)
      else if CiAt(s, i, "mtl") then
        (match MatlTail(s, i + 3) case Some(n) => Some(3 + n) case None => None)
      else None
    case Wrapping =>
      if IsBoundary(s, i) && CiAt(s, i, "wra") && RunLength(s, i + 3, IsLowerP) > 0 then
        var q := i + 3 + RunLength(s, i + 3, IsLowerP);
        if CiAt(s, q, "i") && q + 1 < |s| && (Lower(s[q + 1]) == 'n' || Lower(s[q + 1]) == 'm')
           && CiAt(s, q + 2, "g") && IsBoundary(s, q + 3)
        then Some(q + 3 - i) else None
      else None
    case ThreeD =>
      if !(i < |s| && s[i] == '3') then None
      else if AnyAt(s, i + 1) && i + 2 < |s| && IsD(s[i + 2]) then Some(3)
      else if i + 1 < |s| && IsD(s[i + 1]) then Some(2)
      else None
    case ORing =>
      if !(IsBoundary(s, i) && i < |s| && (s[i] == '0' || Lower(s[i]) == 'o')) then None
      else if AnyAt(s, i + 1) && CiAt(s, i + 2, "ring") && IsBoundary(s, i + 6) then Some(6)
      else if CiAt(s, i + 1, "ring") && IsBoundary(s, i + 5) then Some(5)
      else None
  }

  /** The output of scanning `s` from position `i` for whole-word occurrences of `w`. */
  function ReplaceWordFrom(s: string, w: string, rep: string, i: nat): string
    requires i <= |s|
    decreases |s| - i
  {
    if i == |s| then []
    else if WordAt(s, i, w) then rep + ReplaceWordFrom(s, w, rep, i + |w|)
    else [s[i]] + ReplaceWordFrom(s, w, rep, i + 1)
  }

  /** The scan keeps the rest of a text in which the word does not occur. */
  lemma {:induction false} NoWordKept(s: string, w: string, rep: string, i: nat)
    requires i <= |s|
    requires forall m :: i <= m <= |s| ==> !WordAt(s, m, w)
    ensures ReplaceWordFrom(s, w, rep, i) == s[i..]
    decreases |s| - i
  {
    if i < |s| {
      NoWordKept(s, w, rep, i + 1);
      assert s[i..] == [s[i]] + s[i + 1..];
    }
  }

  /** `str.replace_all(r"(?i)\bw\b", rep)`: every whole-word occurrence of `w`, in any case,
      becomes `rep`. */
  function ReplaceWord(s: string, w: string, rep: string): string {
    ReplaceWordFrom(s, w, rep, 0)
  }

  /** The output of scanning `s` from position `i` for matches of `m`. */
  function ReplaceFrom(s: string, m: Matcher, rep: string, i: nat): string
    requires i <= |s|
    decreases |s| - i
  {
    if i == |s| then []
    else match MatchAt(m, s, i)
      case Some(n) => rep + ReplaceFrom(s, m, rep, i + n)
      case None => [s[i]] + ReplaceFrom(s, m, rep, i + 1)
  }

  /** The scan keeps the rest of a text that the pattern matches nowhere in. */
  lemma {:induction false} NoMatchKept(s: string, m: Matcher, rep: string, i: nat)
    requires i <= |s|
    requires forall j :: i <= j < |s| ==> MatchAt(m, s, j).None?
    ensures ReplaceFrom(s, m, rep, i) == s[i..]
    decreases |s| - i
  {
    if i < |s| {
      NoMatchKept(s, m, rep, i + 1);
      assert s[i..] == [s[i]] + s[i + 1..];
    }
  }

  /** `str.replace_all(pattern, rep)` for the other patterns; a text the pattern matches
      nowhere in is kept. */
  function ReplaceAll(s: string, m: Matcher, rep: string): (r: string)
    ensures (forall j :: 0 <= j < |s| ==> MatchAt(m, s, j).None?) ==> r == s
  {
    if forall j :: 0 <= j < |s| ==> MatchAt(m, s, j).None? then
      NoMatchKept(s, m, rep, 0);
      assert s[0..] == s;
      ReplaceFrom(s, m, rep, 0)
    else ReplaceFrom(s, m, rep, 0)
  }

  function ApplyRule(s: string, rule: Rule): string {
    match rule.pattern
    case Word(w) => ReplaceWord(s, w, rule.rep)
    case Shape(m) => ReplaceAll(s, m, rule.rep)
  }

  /** The rules applied in order, the first one first. */
  function ApplyRules(s: string, rules: seq<Rule>): string
    decreases |rules|
  {
    if rules == [] then s else ApplyRule(ApplyRules(s, rules[..|rules| - 1]), rules[|rules| - 1])
  }

  /** Applying a chain of rules is applying its first part, then the rest to the output. */
  lemma {:induction false} ApplyRulesInOrder(s: string, a: seq<Rule>, b: seq<Rule>)
    ensures ApplyRules(s, a + b) == ApplyRules(ApplyRules(s, a), b)
    decreases |b|
  {
    if b == [] {
      assert a + b == a;
    } else {
      var init := b[..|b| - 1];
      ApplyRulesInOrder(s, a, init);
      assert (a + b)[..|a + b| - 1] == a + init;
      assert (a + b)[|a + b| - 1] == b[|b| - 1];
    }
  }

  /** `p` matches nowhere in `s`. */
  predicate MatchesNowhere(s: string, p: Pattern) {
    match p
    case Word(w) => forall m :: 0 <= m <= |s| ==> !WordAt(s, m, w)
    case Shape(mt) => forall j :: 0 <= j < |s| ==> MatchAt(mt, s, j).None?
  }

  /** A text that no rule of a chain matches anywhere comes out of the chain unchanged. */
  lemma {:induction false} UnmatchedChainKeeps(s: string, rules: seq<Rule>)
    requires forall j :: 0 <= j < |rules| ==> MatchesNowhere(s, rules[j].pattern)
    ensures ApplyRules(s, rules) == s
    decreases |rules|
  {
    if rules != [] {
      var init := rules[..|rules| - 1];
      assert forall j :: 0 <= j < |init| ==> init[j] == rules[j];
      UnmatchedChainKeeps(s, init);
      var r := rules[|rules| - 1];
      assert MatchesNowhere(s, r.pattern);
      if r.pattern.Word? {
        NoWordKept(s, r.pattern.word, r.rep, 0);
        assert s[0..] == s;
      }
    }
  }
}

/** Facts about replacing a whole word by a spelling of it that differs only in case, which
    is what every step of the acronym loop does. */
module WordCase {
  import opened Options
  import opened Text
  import opened Rewrite

  /** A non-empty literal made of word characters, as every word the cleanup looks for is. */
  predicate IsWordLiteral(w: string) {
    |w| > 0 && forall k :: 0 <= k < |w| ==> IsWordChar(w[k])
  }

  /** Every whole-word, case-insensitive occurrence of `w` in `s` is spelt exactly `w`. */
  predicate InForm(s: string, w: string) {
    forall m :: 0 <= m <= |s| && WordAt(s, m, w) ==> s[m..m + |w|] == w
  }

  lemma MatchIsWordChars(s: string, m: nat, w: string, k: nat)
    requires WordAt(s, m, w) && IsWordLiteral(w) && k < |w|
    ensures IsWordChar(s[m + k]) && Lower(s[m + k]) == Lower(w[k])
  {
    CiAtIsCaseEquivalent(s, m, w);
    assert s[m..m + |w|][k] == s[m + k];
    assert Lower(s[m + k]) == Lower(w[k]);
    assert IsWordChar(Lower(s[m + k])) == IsWordChar(s[m + k]);
    assert IsWordChar(Lower(w[k])) == IsWordChar(w[k]);
  }

  /** A whole-word match of a word literal is a maximal run of word characters. */
  lemma MatchIsWordRun(s: string, m: nat, w: string)
    requires WordAt(s, m, w) && IsWordLiteral(w)
    ensures forall k :: m <= k < m + |w| ==> IsWordChar(s[k])
    ensures m > 0 ==> !IsWordChar(s[m - 1])
    ensures m + |w| < |s| ==> !IsWordChar(s[m + |w|])
  {
    forall k | m <= k < m + |w| ensures IsWordChar(s[k]) {
      MatchIsWordChars(s, m, w, k - m);
    }
  }

  /** Two whole-word matches that share a position are the same word occurrence. */
  lemma OverlappingWordsCoincide(s: string, m: nat, a: string, j: nat, b: string)
    requires IsWordLiteral(a) && IsWordLiteral(b)
    requires WordAt(s, m, a) && WordAt(s, j, b)
    requires m < j + |b| && j < m + |a|
    ensures m == j && |a| == |b|
  {
    MatchIsWordRun(s, m, a);
    MatchIsWordRun(s, j, b);
  }

  lemma WordCharsAgree(c: char, d: char)
    requires Lower(c) == Lower(d)
    ensures IsWordChar(c) == IsWordChar(d)
  {
    assert IsWordChar(Lower(c)) == IsWordChar(c);
    assert IsWordChar(Lower(d)) == IsWordChar(d);
  }

  /** Whole-word matches depend on the case of nothing. */
  lemma {:induction false} WordAtIgnoresCase(s: string, t: string, j: nat, v: string)
    requires CaseEquivalent(s, t)
    ensures WordAt(s, j, v) <==> WordAt(t, j, v)
  {
    if |v| > 0 && j + |v| <= |s| {
      CiAtIsCaseEquivalent(s, j, v);
      CiAtIsCaseEquivalent(t, j, v);
      if CaseEquivalent(s[j..j + |v|], v) {
        forall k | 0 <= k < |v| ensures Lower(t[j..j + |v|][k]) == Lower(v[k]) {
          assert s[j..j + |v|][k] == s[j + k] && t[j..j + |v|][k] == t[j + k];
        }
      }
      if CaseEquivalent(t[j..j + |v|], v) {
        forall k | 0 <= k < |v| ensures Lower(s[j..j + |v|][k]) == Lower(v[k]) {
          assert s[j..j + |v|][k] == s[j + k] && t[j..j + |v|][k] == t[j + k];
        }
      }
      if j > 0 { WordCharsAgree(s[j - 1], t[j - 1]); }
      if j < |s| { WordCharsAgree(s[j], t[j]); }
      if j + |v| > 0 { WordCharsAgree(s[j + |v| - 1], t[j + |v| - 1]); }
      if j + |v| < |s| { WordCharsAgree(s[j + |v|], t[j + |v|]); }
    }
  }

  /** Replacing a word by a case variant of it changes case only. */
  lemma {:induction false} ReplaceFromKeepsLetters(s: string, w: string, rep: string, i: nat)
    requires i <= |s| && IsWordLiteral(w) && CaseEquivalent(rep, w)
    ensures CaseEquivalent(ReplaceWordFrom(s, w, rep, i), s[i..])
    decreases |s| - i
  {
    if i < |s| {
      var out := ReplaceWordFrom(s, w, rep, i);
      if WordAt(s, i, w) {
        ReplaceFromKeepsLetters(s, w, rep, i + |w|);
        var tail := ReplaceWordFrom(s, w, rep, i + |w|);
        assert out == rep + tail;
        forall k | 0 <= k < |out| ensures Lower(out[k]) == Lower(s[i..][k]) {
          if k < |w| {
            MatchIsWordChars(s, i, w, k);
          } else {
            assert out[k] == tail[k - |w|];
            assert s[i + |w|..][k - |w|] == s[i..][k];
          }
        }
      } else {
        ReplaceFromKeepsLetters(s, w, rep, i + 1);
        var tail := ReplaceWordFrom(s, w, rep, i + 1);
        assert out == [s[i]] + tail;
        forall k | 0 <= k < |out| ensures Lower(out[k]) == Lower(s[i..][k]) {
          if k > 0 {
            assert out[k] == tail[k - 1];
            assert s[i + 1..][k - 1] == s[i..][k];
          }
        }
      }
    }
  }

  /** One step of the scan for a whole word. */
  lemma WordStep(s: string, w: string, rep: string, i: nat)
    requires i < |s|
    ensures ReplaceWordFrom(s, w, rep, i)
         == if WordAt(s, i, w) then rep + ReplaceWordFrom(s, w, rep, i + |w|)
            else [s[i]] + ReplaceWordFrom(s, w, rep, i + 1)
  {
  }

  lemma WordStepMatch(s: string, w: string, rep: string, i: nat)
    requires i < |s| && WordAt(s, i, w)
    ensures ReplaceWordFrom(s, w, rep, i) == rep + ReplaceWordFrom(s, w, rep, i + |w|)
  {
  }

  lemma WordStepCopy(s: string, w: string, rep: string, i: nat)
    requires i < |s| && !WordAt(s, i, w)
    ensures ReplaceWordFrom(s, w, rep, i) == [s[i]] + ReplaceWordFrom(s, w, rep, i + 1)
  {
  }

  lemma {:induction false} ReplaceFromLength(s: string, w: string, rep: string, i: nat)
    requires i <= |s| && |rep| == |w|
    ensures |ReplaceWordFrom(s, w, rep, i)| == |s| - i
    decreases |s| - i
  {
    if i < |s| {
      WordStep(s, w, rep, i);
      if WordAt(s, i, w) {
        ReplaceFromLength(s, w, rep, i + |w|);
      } else {
        ReplaceFromLength(s, w, rep, i + 1);
      }
    }
  }

  /** Every match of `w` at or after `i` is spelt `rep` in the output. */
  lemma {:induction false} MatchBecomesRep(s: string, w: string, rep: string, i: nat, m: nat, k: nat)
    requires i <= m && IsWordLiteral(w) && |rep| == |w|
    requires WordAt(s, m, w) && k < |w|
    ensures m - i + k < |ReplaceWordFrom(s, w, rep, i)|
    ensures ReplaceWordFrom(s, w, rep, i)[m - i + k] == rep[k]
    decreases |s| - i
  {
    if m == i {
      MatchHereStep(s, w, rep, i, k);
    } else {
      var pre, j := ScanStep(s, w, rep, i, m);
      MatchBecomesRep(s, w, rep, j, m, k);
      SkipIndex(pre, ReplaceWordFrom(s, w, rep, j), m - j + k, rep[k]);
    }
  }

  /** An element of `b` is found |a| places further on in `a + b`. */
  lemma SkipIndex<T>(a: seq<T>, b: seq<T>, j: nat, v: T)
    requires j < |b| && b[j] == v
    ensures |a| + j < |a + b| && (a + b)[|a| + j] == v
  {
  }

  /** The output from an occurrence starts with `rep`. */
  lemma MatchHereStep(s: string, w: string, rep: string, i: nat, k: nat)
    requires i < |s| && WordAt(s, i, w) && k < |rep|
    ensures k < |ReplaceWordFrom(s, w, rep, i)| && ReplaceWordFrom(s, w, rep, i)[k] == rep[k]
  {
    WordStepMatch(s, w, rep, i);
  }

  /** Two different whole-word occurrences of a word literal do not overlap. */
  lemma NextMatchAfter(s: string, i: nat, m: nat, w: string)
    requires IsWordLiteral(w) && WordAt(s, i, w) && WordAt(s, m, w) && i < m
    ensures i + |w| <= m
  {
    if m < i + |w| { OverlappingWordsCoincide(s, i, w, m, w); }
  }

  /** After an occurrence at `i`, the output from `i` goes on with the output from the end of
      the occurrence, |rep| places further on. */
  lemma MatchLaterStep(s: string, w: string, rep: string, i: nat, e: nat)
    requires i < |s| && WordAt(s, i, w) && e < |ReplaceWordFrom(s, w, rep, i + |w|)|
    ensures |rep| + e < |ReplaceWordFrom(s, w, rep, i)|
    ensures ReplaceWordFrom(s, w, rep, i)[|rep| + e] == ReplaceWordFrom(s, w, rep, i + |w|)[e]
  {
    WordStepMatch(s, w, rep, i);
  }

  /** After a copied character at `i`, the output from `i` goes on with the output from
      `i + 1`, one place further on. */
  lemma CopyLaterStep(s: string, w: string, rep: string, i: nat, e: nat)
    requires i < |s| && !WordAt(s, i, w) && e < |ReplaceWordFrom(s, w, rep, i + 1)|
    ensures 1 + e < |ReplaceWordFrom(s, w, rep, i)|
    ensures ReplaceWordFrom(s, w, rep, i)[1 + e] == ReplaceWordFrom(s, w, rep, i + 1)[e]
  {
    WordStepCopy(s, w, rep, i);
  }

  /** A position that no match of `w` covers keeps its character. */
  lemma {:induction false} UncoveredUnchanged(s: string, w: string, rep: string, i: nat, p: nat)
    requires i <= p < |s| && IsWordLiteral(w) && |rep| == |w|
    requires forall m :: i <= m <= p && p < m + |w| ==> !WordAt(s, m, w)
    ensures p - i < |ReplaceWordFrom(s, w, rep, i)|
    ensures ReplaceWordFrom(s, w, rep, i)[p - i] == s[p]
    decreases |s| - i
  {
    if WordAt(s, i, w) {
      assert i + |w| <= p;
      UncoveredUnchanged(s, w, rep, i + |w|, p);
      UncoveredAfterMatch(s, w, rep, i, p);
    } else if p > i {
      UncoveredUnchanged(s, w, rep, i + 1, p);
      UncoveredAfterCopy(s, w, rep, i, p);
    } else {
      WordStepCopy(s, w, rep, i);
    }
  }

  lemma UncoveredAfterMatch(s: string, w: string, rep: string, i: nat, p: nat)
    requires i < |s| && WordAt(s, i, w) && i + |w| <= p < |s| && |rep| == |w|
    requires p - (i + |w|) < |ReplaceWordFrom(s, w, rep, i + |w|)|
    requires ReplaceWordFrom(s, w, rep, i + |w|)[p - (i + |w|)] == s[p]
    ensures p - i < |ReplaceWordFrom(s, w, rep, i)| && ReplaceWordFrom(s, w, rep, i)[p - i] == s[p]
  {
    MatchLaterStep(s, w, rep, i, p - (i + |w|));
    assert p - i == |rep| + (p - (i + |w|));
  }

  lemma UncoveredAfterCopy(s: string, w: string, rep: string, i: nat, p: nat)
    requires i < p < |s| && !WordAt(s, i, w)
    requires p - (i + 1) < |ReplaceWordFrom(s, w, rep, i + 1)|
    requires ReplaceWordFrom(s, w, rep, i + 1)[p - (i + 1)] == s[p]
    ensures p - i < |ReplaceWordFrom(s, w, rep, i)| && ReplaceWordFrom(s, w, rep, i)[p - i] == s[p]
  {
    CopyLaterStep(s, w, rep, i, p - (i + 1));
    assert p - i == 1 + (p - (i + 1));
  }

  /** After the replacement every occurrence of `w` is spelt `w`. */
  lemma ReplaceSetsForm(s: string, w: string)
    requires IsWordLiteral(w)
    ensures CaseEquivalent(ReplaceWord(s, w, w), s)
    ensures InForm(ReplaceWord(s, w, w), w)
  {
    var t := ReplaceWord(s, w, w);
    ReplaceFromKeepsLetters(s, w, w, 0);
    assert s[0..] == s;
    forall m | 0 <= m <= |t| && WordAt(t, m, w) ensures t[m..m + |w|] == w {
      OccurrenceSpeltOut(s, w, t, m);
    }
  }

  lemma OccurrenceSpeltOut(s: string, w: string, t: string, m: nat)
    requires IsWordLiteral(w) && t == ReplaceWord(s, w, w) && CaseEquivalent(t, s)
    requires m <= |t| && WordAt(t, m, w)
    ensures t[m..m + |w|] == w
  {
    WordAtIgnoresCase(s, t, m, w);
    forall k | 0 <= k < |w| ensures t[m..m + |w|][k] == w[k] {
      MatchBecomesRep(s, w, w, 0, m, k);
    }
  }

  /** No whole-word occurrence of `w` overlaps an occurrence of a word `v` that differs
      from `w` by more than case. */
  lemma OtherWordNotCovered(s: string, w: string, v: string, j: nat, p: nat)
    requires IsWordLiteral(w) && IsWordLiteral(v) && !CaseEquivalent(v, w)
    requires j + |v| <= |s| && WordAt(s, j, v) && j <= p < j + |v|
    ensures forall m :: 0 <= m <= p && p < m + |w| ==> !WordAt(s, m, w)
  {
    forall m | 0 <= m <= p && p < m + |w| ensures !WordAt(s, m, w) {
      if WordAt(s, m, w) {
        OverlappingWordsCoincide(s, m, w, j, v);
        forall q | 0 <= q < |v| ensures Lower(v[q]) == Lower(w[q]) {
          MatchIsWordChars(s, j, v, q);
          MatchIsWordChars(s, m, w, q);
        }
        assert false;
      }
    }
  }

  /** Spelling out one word leaves every differently-lettered word as it was spelt. */
  lemma KeepsOtherForms(s: string, w: string, v: string)
    requires IsWordLiteral(w) && IsWordLiteral(v) && !CaseEquivalent(v, w)
    requires InForm(s, v)
    ensures InForm(ReplaceWord(s, w, w), v)
  {
    var t := ReplaceWord(s, w, w);
    ReplaceFromKeepsLetters(s, w, w, 0);
    assert s[0..] == s;
    forall j | 0 <= j <= |t| && WordAt(t, j, v) ensures t[j..j + |v|] == v {
      OtherOccurrenceKept(s, w, v, t, j);
    }
  }

  lemma OtherOccurrenceKept(s: string, w: string, v: string, t: string, j: nat)
    requires IsWordLiteral(w) && IsWordLiteral(v) && !CaseEquivalent(v, w)
    requires InForm(s, v) && t == ReplaceWord(s, w, w) && CaseEquivalent(t, s)
    requires j <= |t| && WordAt(t, j, v)
    ensures t[j..j + |v|] == v
  {
    WordAtIgnoresCase(s, t, j, v);
    assert s[j..j + |v|] == v;
    forall k | 0 <= k < |v| ensures t[j..j + |v|][k] == v[k] {
      var p := j + k;
      OtherWordNotCovered(s, w, v, j, p);
      UncoveredUnchanged(s, w, w, 0, p);
      assert s[j..j + |v|][k] == s[p];
    }
  }

  /** Spelling out a word that is already spelt out changes nothing. */
  lemma {:induction false} ReplaceInFormIsIdentity(s: string, w: string, rep: string, i: nat)
    requires i <= |s| && IsWordLiteral(w)
    requires forall m :: 0 <= m <= |s| && WordAt(s, m, w) ==> s[m..m + |w|] == rep
    ensures ReplaceWordFrom(s, w, rep, i) == s[i..]
    decreases |s| - i
  {
    if i < |s| {
      if WordAt(s, i, w) {
        ReplaceInFormIsIdentity(s, w, rep, i + |w|);
        assert s[i..] == s[i..i + |w|] + s[i + |w|..];
      } else {
        ReplaceInFormIsIdentity(s, w, rep, i + 1);
        assert s[i..] == [s[i]] + s[i + 1..];
      }
    }
  }

  /** The scan output starts with a word character exactly when the scanned text does. */
  lemma ScanStartsLikeInput(s: string, w: string, rep: string, i: nat)
    requires i < |s| && IsWordLiteral(w) && IsWordLiteral(rep)
    ensures ReplaceWordFrom(s, w, rep, i) != []
    ensures IsWordChar(ReplaceWordFrom(s, w, rep, i)[0]) == IsWordChar(s[i])
  {
    WordStep(s, w, rep, i);
    if WordAt(s, i, w) {
      MatchIsWordChars(s, i, w, 0);
    }
  }

  /** Inside a run of word characters no word can start, so the scan copies the run. */
  lemma {:induction false} RunCopied(s: string, w: string, rep: string, j: nat, k: nat)
    requires 0 < j <= k <= |s|
    requires forall q :: j - 1 <= q < k ==> IsWordChar(s[q])
    ensures ReplaceWordFrom(s, w, rep, j) == s[j..k] + ReplaceWordFrom(s, w, rep, k)
    decreases k - j
  {
    var tail := ReplaceWordFrom(s, w, rep, k);
    if j < k {
      NoWordInsideRun(s, j, w);
      WordStep(s, w, rep, j);
      RunCopied(s, w, rep, j + 1, k);
      SliceCons(s, j, k, tail);
    } else {
      assert s[j..k] + tail == tail;
    }
  }

  /** No whole word starts between two word characters. */
  lemma NoWordInsideRun(s: string, j: nat, w: string)
    requires 0 < j < |s| && IsWordChar(s[j - 1]) && IsWordChar(s[j])
    ensures !WordAt(s, j, w)
  {
  }

  /** Taking the first element off a slice that is followed by `t`. */
  lemma SliceCons<T>(s: seq<T>, j: nat, k: nat, t: seq<T>)
    requires j < k <= |s|
    ensures [s[j]] + (s[j + 1..k] + t) == s[j..k] + t
  {
    assert s[j..k] == [s[j]] + s[j + 1..k];
  }

  /** What a whole-word match of a word literal looks like: a maximal run of word characters
      that agrees with the word up to case. */
  lemma WordAtShape(x: string, m: nat, w: string)
    requires IsWordLiteral(w)
    ensures WordAt(x, m, w) ==>
              && m + |w| <= |x|
              && (forall k :: m <= k < m + |w| ==> IsWordChar(x[k]))
              && (m > 0 ==> !IsWordChar(x[m - 1]))
              && (m + |w| < |x| ==> !IsWordChar(x[m + |w|]))
              && CaseEquivalent(x[m..m + |w|], w)
  {
    if WordAt(x, m, w) {
      MatchIsWordRun(x, m, w);
      CiAtIsCaseEquivalent(x, m, w);
    }
  }

  /** Once the scan has reached `i`, with output `p` so far ending in a word character
      exactly when the text before `i` does, no whole-word occurrence of `w` starts in the
      rest of the output. */
  lemma {:induction false} NoWordFrom(s: string, w: string, rep: string, i: nat, p: string)
    requires i <= |s| && IsWordLiteral(w) && IsWordLiteral(rep) && !CaseEquivalent(rep, w)
    requires (p != [] && IsWordChar(p[|p| - 1])) == (i > 0 && IsWordChar(s[i - 1]))
    ensures forall m :: |p| <= m <= |p + ReplaceWordFrom(s, w, rep, i)| ==>
              !WordAt(p + ReplaceWordFrom(s, w, rep, i), m, w)
    decreases |s| - i
  {
    if i < |s| {
      WordStep(s, w, rep, i);
      if WordAt(s, i, w) {
        var q := p + rep;
        assert q[|q| - 1] == rep[|rep| - 1];
        MatchIsWordRun(s, i, w);
        NoWordFrom(s, w, rep, i + |w|, q);
        MatchStepClear(s, w, rep, i, p, q + ReplaceWordFrom(s, w, rep, i + |w|));
      } else {
        var q := p + [s[i]];
        NoWordFrom(s, w, rep, i + 1, q);
        CopyStepClear(s, w, rep, i, p, q + ReplaceWordFrom(s, w, rep, i + 1));
      }
    }
  }

  /** The step of the scan that writes `rep` for the occurrence at `i` adds no occurrence. */
  lemma MatchStepClear(s: string, w: string, rep: string, i: nat, p: string, x: string)
    requires i < |s| && IsWordLiteral(w) && IsWordLiteral(rep) && !CaseEquivalent(rep, w)
    requires WordAt(s, i, w) && x == (p + rep) + ReplaceWordFrom(s, w, rep, i + |w|)
    requires forall m :: |p + rep| <= m <= |x| ==> !WordAt(x, m, w)
    ensures x == p + ReplaceWordFrom(s, w, rep, i)
    ensures forall m :: |p| <= m <= |x| ==> !WordAt(x, m, w)
  {
    WordStepMatch(s, w, rep, i);
    ConcatAssoc(p, rep, ReplaceWordFrom(s, w, rep, i + |w|));
    NoWordInReplacement(s, w, rep, i, p, x);
  }

  /** The step of the scan that copies the character at `i` adds no occurrence. */
  lemma CopyStepClear(s: string, w: string, rep: string, i: nat, p: string, x: string)
    requires i < |s| && IsWordLiteral(w) && IsWordLiteral(rep)
    requires (p != [] && IsWordChar(p[|p| - 1])) == (i > 0 && IsWordChar(s[i - 1]))
    requires !WordAt(s, i, w) && x == (p + [s[i]]) + ReplaceWordFrom(s, w, rep, i + 1)
    requires forall m :: |p| + 1 <= m <= |x| ==> !WordAt(x, m, w)
    ensures x == p + ReplaceWordFrom(s, w, rep, i)
    ensures forall m :: |p| <= m <= |x| ==> !WordAt(x, m, w)
  {
    WordStepCopy(s, w, rep, i);
    ConcatAssoc(p, [s[i]], ReplaceWordFrom(s, w, rep, i + 1));
    UnmatchedRunStaysUnmatched(s, w, rep, i, p);
  }

  lemma ConcatAssoc<T>(a: seq<T>, b: seq<T>, c: seq<T>)
    ensures (a + b) + c == a + (b + c)
  {
  }

  /** Where the scan writes `rep` for an occurrence, no occurrence of `w` starts inside it. */
  lemma NoWordInReplacement(s: string, w: string, rep: string, i: nat, p: string, x: string)
    requires i < |s| && IsWordLiteral(w) && IsWordLiteral(rep) && !CaseEquivalent(rep, w)
    requires WordAt(s, i, w) && x == (p + rep) + ReplaceWordFrom(s, w, rep, i + |w|)
    ensures forall m :: |p| <= m < |p| + |rep| ==> !WordAt(x, m, w)
  {
    var rest := ReplaceWordFrom(s, w, rep, i + |w|);
    AfterMatchIsNonWord(s, w, rep, i);
    forall m | |p| <= m < |p| + |rep| ensures !WordAt(x, m, w) {
      NoWordInRep(x, p, rep, rest, w, m);
    }
  }

  /** The scan output that follows an occurrence does not start with a word character. */
  lemma AfterMatchIsNonWord(s: string, w: string, rep: string, i: nat)
    requires i < |s| && IsWordLiteral(w) && IsWordLiteral(rep) && WordAt(s, i, w)
    ensures var rest := ReplaceWordFrom(s, w, rep, i + |w|);
            rest != [] ==> !IsWordChar(rest[0])
  {
    if i + |w| < |s| {
      MatchIsWordRun(s, i, w);
      ScanStartsLikeInput(s, w, rep, i + |w|);
    }
  }

  /** Indexing into `p + r + t` around the middle part. */
  lemma ConcatWindow(x: string, p: string, r: string, t: string)
    requires x == (p + r) + t
    ensures |x| == |p| + |r| + |t| && x[|p|..|p| + |r|] == r
    ensures forall k :: |p| <= k < |p| + |r| ==> x[k] == r[k - |p|]
    ensures |p| > 0 ==> x[|p| - 1] == p[|p| - 1]
    ensures t != [] ==> x[|p| + |r|] == t[0]
  {
  }

  /** No word occurrence in `p + rep + rest` starts inside `rep` when `rest` does not go on
      with a word character: it would be `rep` itself, or a part of it, or run past it. */
  lemma NoWordInRep(x: string, p: string, rep: string, rest: string, w: string, m: nat)
    requires x == (p + rep) + rest && IsWordLiteral(w) && IsWordLiteral(rep)
    requires !CaseEquivalent(rep, w) && |p| <= m < |p| + |rep|
    requires rest != [] ==> !IsWordChar(rest[0])
    ensures !WordAt(x, m, w)
  {
    WordAtShape(x, m, w);
    ConcatWindow(x, p, rep, rest);
    if m > |p| {
      assert x[m - 1] == rep[m - |p| - 1];
    } else if |w| < |rep| {
      assert x[m + |w|] == rep[|w|];
    }
  }

  /** Where the scan copies the character at `i`, no word occurrence starts there in the
      output: the run of word characters from `i` is copied whole, and it was not an
      occurrence in the text. */
  lemma UnmatchedRunStaysUnmatched(s: string, w: string, rep: string, i: nat, p: string)
    requires i < |s| && IsWordLiteral(w) && IsWordLiteral(rep)
    requires (p != [] && IsWordChar(p[|p| - 1])) == (i > 0 && IsWordChar(s[i - 1]))
    requires !WordAt(s, i, w)
    ensures !WordAt(p + ReplaceWordFrom(s, w, rep, i), |p|, w)
  {
    var n := RunLength(s, i, IsWordChar);
    if n == 0 {
      ScanStartsLikeInput(s, w, rep, i);
      var out := ReplaceWordFrom(s, w, rep, i);
      ConcatWindow(p + out, p, out, []);
      NoWordAtNonWord(p + out, |p|, w);
    } else {
      CopiedRunStaysUnmatched(s, w, rep, i, n, p);
    }
  }

  lemma CopiedRunStaysUnmatched(s: string, w: string, rep: string, i: nat, n: nat, p: string)
    requires IsWordLiteral(w) && IsWordLiteral(rep) && 0 < n && i + n <= |s|
    requires forall k :: i <= k < i + n ==> IsWordChar(s[k])
    requires i + n < |s| ==> !IsWordChar(s[i + n])
    requires (p != [] && IsWordChar(p[|p| - 1])) == (i > 0 && IsWordChar(s[i - 1]))
    requires !WordAt(s, i, w)
    ensures !WordAt(p + ReplaceWordFrom(s, w, rep, i), |p|, w)
  {
    var tail := ReplaceWordFrom(s, w, rep, i + n);
    UnmatchedRunCopied(s, w, rep, i, n);
    var x := p + ReplaceWordFrom(s, w, rep, i);
    assert x == (p + s[i..i + n]) + tail;
    CopiedRunAt(s, w, rep, i, n, x, p, tail);
  }

  /** A run of word characters that is not an occurrence is copied whole. */
  lemma UnmatchedRunCopied(s: string, w: string, rep: string, i: nat, n: nat)
    requires 0 < n && i + n <= |s| && !WordAt(s, i, w)
    requires forall k :: i <= k < i + n ==> IsWordChar(s[k])
    ensures ReplaceWordFrom(s, w, rep, i) == s[i..i + n] + ReplaceWordFrom(s, w, rep, i + n)
  {
    WordStepCopy(s, w, rep, i);
    RunCopied(s, w, rep, i + 1, i + n);
    SliceCons(s, i, i + n, ReplaceWordFrom(s, w, rep, i + n));
  }

  /** A word literal cannot start at a non-word character. */
  lemma NoWordAtNonWord(x: string, m: nat, w: string)
    requires IsWordLiteral(w) && m < |x| && !IsWordChar(x[m])
    ensures !WordAt(x, m, w)
  {
    WordAtShape(x, m, w);
  }

  lemma CopiedRunAt(s: string, w: string, rep: string, i: nat, n: nat, x: string, p: string,
                    tail: string)
    requires IsWordLiteral(w) && IsWordLiteral(rep) && 0 < n && i + n <= |s|
    requires forall k :: i <= k < i + n ==> IsWordChar(s[k])
    requires i + n < |s| ==> !IsWordChar(s[i + n])
    requires (p != [] && IsWordChar(p[|p| - 1])) == (i > 0 && IsWordChar(s[i - 1]))
    requires tail == ReplaceWordFrom(s, w, rep, i + n)
    requires x == (p + s[i..i + n]) + tail
    ensures WordAt(x, |p|, w) ==> WordAt(s, i, w)
  {
    ConcatWindow(x, p, s[i..i + n], tail);
    if i + n < |s| {
      ScanStartsLikeInput(s, w, rep, i + n);
    }
    CopiedRunMatchesAlike(x, |p|, s, i, n, w);
  }

  /** Two copies of the same maximal run of word characters, both preceded by a non-word
      character or the start, hold the same whole-word matches. */
  lemma CopiedRunMatchesAlike(x: string, a: nat, s: string, i: nat, n: nat, w: string)
    requires IsWordLiteral(w) && 0 < n && a + n <= |x| && i + n <= |s|
    requires x[a..a + n] == s[i..i + n]
    requires forall k :: i <= k < i + n ==> IsWordChar(s[k])
    requires a + n < |x| ==> !IsWordChar(x[a + n])
    requires i + n < |s| ==> !IsWordChar(s[i + n])
    requires (a > 0 && IsWordChar(x[a - 1])) == (i > 0 && IsWordChar(s[i - 1]))
    ensures WordAt(x, a, w) ==> WordAt(s, i, w)
  {
    WordAtShape(x, a, w);
    forall k | a <= k < a + n ensures x[k] == s[i + (k - a)] {
      assert x[a..a + n][k - a] == x[k] && s[i..i + n][k - a] == s[i + (k - a)];
    }
    if WordAt(x, a, w) {
      CiAtIsCaseEquivalent(s, i, w);
    }
  }

  /** After `(?i)\bw\b` is replaced by a word that is not a case variant of `w`, `w` no
      longer occurs as a whole word. */
  lemma ExpandedWordIsGone(s: string, w: string, rep: string)
    requires IsWordLiteral(w) && IsWordLiteral(rep) && !CaseEquivalent(rep, w)
    ensures forall m :: 0 <= m <= |ReplaceWord(s, w, rep)| ==> !WordAt(ReplaceWord(s, w, rep), m, w)
  {
    NoWordFrom(s, w, rep, 0, []);
    assert [] + ReplaceWord(s, w, rep) == ReplaceWord(s, w, rep);
  }

  /** One step of the scan from `i`, before a later occurrence at `m`: the scan writes `pre`,
      as long as the text it consumes, and goes on from `j`, at most `m`. */
  lemma ScanStep(s: string, w: string, rep: string, i: nat, m: nat) returns (pre: string, j: nat)
    requires i < m && IsWordLiteral(w) && |rep| == |w| && WordAt(s, m, w)
    ensures i < j <= m && |pre| == j - i
    ensures ReplaceWordFrom(s, w, rep, i) == pre + ReplaceWordFrom(s, w, rep, j)
  {
    if WordAt(s, i, w) {
      NextMatchAfter(s, i, m, w);
      WordStepMatch(s, w, rep, i);
      pre, j := rep, i + |w|;
      assert ReplaceWordFrom(s, w, rep, i) == pre + ReplaceWordFrom(s, w, rep, j);
    } else {
      WordStepCopy(s, w, rep, i);
      pre, j := [s[i]], i + 1;
      assert ReplaceWordFrom(s, w, rep, i) == pre + ReplaceWordFrom(s, w, rep, j);
    }
  }
}
