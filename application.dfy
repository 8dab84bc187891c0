/** The cleanup of the Application column: title case, the acronym loop, the chain of
    abbreviation and typo rules, period removal, space collapsing, stripping, and the table
    of exact corrections. A null Application stays null, and `Raw_Application` keeps the
    value as it was scraped. */
module Application {
  import opened Options
  import opened Text
  import opened Rewrite
  import opened WordCase
  import opened Acronyms

  // ---------------------------------------------------------------------------------------
  // Title case

  /** `str.to_titlecase` over ASCII, on the rest of a string: the first character is
      capitalized when `capitalize` holds and lower-cased otherwise, and each later
      character is capitalized exactly when it follows a non-alphanumeric one. */
  function TitleFrom(s: string, capitalize: bool): (r: string)
    ensures |r| == |s|
  {
    if s == [] then []
    else [if capitalize then Upper(s[0]) else Lower(s[0])] + TitleFrom(s[1..], !IsAlnum(s[0]))
  }

  /** `str.to_titlecase()`: only letter case changes. */
  function TitleCase(s: string): (r: string)
    ensures CaseEquivalent(r, s)
  {
    TitleFromPointwise(s, true);
    TitleFrom(s, true)
  }

  /** Position `k` starts a word for title casing: it is first, or follows a character that
      is not a letter or a digit. */
  predicate StartsWord(s: string, k: nat)
    requires k < |s|
  {
    k == 0 || !IsAlnum(s[k - 1])
  }

  lemma {:induction false} TitleFromPointwise(s: string, capitalize: bool)
    ensures forall k :: 0 < k < |s| ==>
              TitleFrom(s, capitalize)[k] == if StartsWord(s, k) then Upper(s[k]) else Lower(s[k])
    ensures s != [] ==>
              TitleFrom(s, capitalize)[0] == if capitalize then Upper(s[0]) else Lower(s[0])
  {
    if s != [] {
      var rest := s[1..];
      TitleFromPointwise(rest, !IsAlnum(s[0]));
      var out := TitleFrom(s, capitalize);
      assert out[1..] == TitleFrom(rest, !IsAlnum(s[0]));
      forall k | 0 < k < |s|
        ensures out[k] == if StartsWord(s, k) then Upper(s[k]) else Lower(s[k])
      {
        assert out[k] == out[1..][k - 1];
        assert rest[k - 1] == s[k];
        if k > 1 {
          assert rest[k - 2] == s[k - 1];
        }
      }
    }
  }

  /** Every word starts with a capital and goes on in lower case; nothing but case changes. */
  lemma TitleCaseSpec(s: string)
    ensures |TitleCase(s)| == |s|
    ensures forall k :: 0 <= k < |s| ==>
              TitleCase(s)[k] == if StartsWord(s, k) then Upper(s[k]) else Lower(s[k])
    ensures CaseEquivalent(TitleCase(s), s)
  {
    TitleFromPointwise(s, true);
  }

  /** Title-casing a title-cased string changes nothing. */
  lemma TitleCaseIdempotent(s: string)
    ensures TitleCase(TitleCase(s)) == TitleCase(s)
  {
    var t := TitleCase(s);
    TitleCaseSpec(s);
    TitleCaseSpec(t);
    forall k | 0 <= k < |t| ensures TitleCase(t)[k] == t[k] {
      if k > 0 {
        assert IsAlnum(t[k - 1]) == IsAlnum(s[k - 1]);
      }
    }
  }

  // ---------------------------------------------------------------------------------------
  // The cleanup chain

  /** The replacements of the cleanup up to the lower-casing of "and" and "for", in order. */
  const Rules: seq<Rule> := [
    Rule(Shape(Lit("&")), " and "),
    Rule(Word("Adh"), "Adhesive"),
    Rule(Word("Tpe"), "Tape"),
    Rule(Shape(AntiStatic), "Antistatic"),
    Rule(Word("Conf"), "Conformal"),
    Rule(Word("Cond"), "Conductive"),
    Rule(Word("Cpnd"), "Compound"),
    Rule(Word("Cmpd"), "Compound"),
    Rule(Word("Elec"), "Electrical"),
    Rule(Shape(ElectricalConductive), "Electrically-Conductive"),
    Rule(Word("blk"), "Black"),
    Rule(Word("unk"), "Unknown"),
    Rule(Word("vib"), "Vibration"),
    Rule(Word("opt"), "Optical"),
    Rule(Shape(Ther), "Thermal"),
    Rule(Shape(ThermConductive), "Thermally-Conductive"),
    Rule(Word("lube"), "Lubricant"),
    Rule(Shape(Matl), "Material"),
    Rule(Word("maerials"), "Materials"),
    Rule(Word("coatint"), "Coating"),
    Rule(Shape(Wrapping), "Wrapping"),
    Rule(Shape(Spaces), " "),
    Rule(Shape(ThreeD), "3D"),
    Rule(Shape(ORing), "O-Ring"),
    Rule(Word("and"), "and"),
    Rule(Word("for"), "for")
  ]

  /** A whole-word rule looks for a word literal. Its replacement is the same literal, for
      the lower-casing of "and" and "for", or a word literal that is not a case variant of
      it. */
  predicate LiteralWordRule(r: Rule) {
    r.pattern.Word? ==>
      && IsWordLiteral(r.pattern.word)
      && IsWordLiteral(r.rep)
      && (r.rep == r.pattern.word || !CaseEquivalent(r.rep, r.pattern.word))
  }

  lemma EarlyRulesAreLiteral()
    ensures forall j :: 0 <= j < 7 ==> LiteralWordRule(Rules[j])
  {
  }

  lemma MiddleRulesAreLiteral()
    ensures forall j :: 7 <= j < 13 ==> LiteralWordRule(Rules[j])
  {
  }

  lemma LateRulesAreLiteral()
    ensures forall j :: 13 <= j < 20 ==> LiteralWordRule(Rules[j])
  {
    CoatingIsNoCaseVariant();
  }

  lemma CoatingIsNoCaseVariant()
    ensures !CaseEquivalent("Coating", "coatint")
  {
    assert Lower("Coating"[6]) != Lower("coatint"[6]);
  }

  lemma LastRulesAreLiteral()
    ensures forall j :: 20 <= j < |Rules| ==> LiteralWordRule(Rules[j])
  {
  }

  /** Each whole-word rule of the chain takes effect everywhere: after an abbreviation or a
      typo is replaced, it no longer occurs as a whole word, and after the lower-casing
      rules "and" and "for" are spelt in lower case wherever they occur as a whole word. */
  lemma WordRuleTakesEffect(s: string, j: nat)
    requires j < |Rules| && Rules[j].pattern.Word?
    ensures var w := Rules[j].pattern.word;
            var out := ApplyRule(s, Rules[j]);
            if Rules[j].rep == w then InForm(out, w)
            else forall m :: 0 <= m <= |out| ==> !WordAt(out, m, w)
  {
    EarlyRulesAreLiteral();
    MiddleRulesAreLiteral();
    LateRulesAreLiteral();
    LastRulesAreLiteral();
    assert LiteralWordRule(Rules[j]);
    var w := Rules[j].pattern.word;
    if Rules[j].rep == w {
      ReplaceSetsForm(s, w);
    } else {
      ExpandedWordIsGone(s, w, Rules[j].rep);
    }
  }

  /** The exact-value corrections applied last. */
  const Corrections: map<string, string> := map[
    "2 Side Tape" := "Tape, Double-Sided",
    "2 Sided Tape" := "Tape, Double-Sided",
    "Tape 2 Side" := "Tape, Double-Sided",
    "Tape 2 Sided" := "Tape, Double-Sided",
    "Capicator" := "Capacitor",
    "Electrical Comp" := "Electrical Component",
    "Electrical Components" := "Electrical Component",
    "PC Board" := "PCB"
  ]

  /** `replace(mapping)`: a value equal to a key becomes its replacement; every other value,
      including one that merely contains a key, is kept. */
  function Correct(v: string): (r: string)
    ensures r != v <==> v in Corrections
    ensures v in Corrections ==> r !in Corrections
  {
    assert "Tape, Double-Sided" !in Corrections && "Capacitor" !in Corrections;
    assert "Electrical Component" !in Corrections && "PCB" !in Corrections;
    if v in Corrections then Corrections[v] else v
  }

  /** Only plain spaces separate words: every whitespace character is `' '`, there are no two
      in a row and none at either end, and no period is left. */
  predicate Tidy(s: string) {
    && Trimmed(s)
    && NoDoubleSpace(s)
    && (forall k :: 0 <= k < |s| ==> IsSpace(s[k]) ==> s[k] == ' ')
    && '.' !in s
  }

  /** Everything after the acronym loop: the rules, period removal, space collapsing,
      stripping, then the corrections. */
  function Cleanup(s: string): (r: string)
    ensures Tidy(r)
  {
    var spelled := ApplyRules(s, Rules);
    var noPeriods := ReplaceAll(spelled, Lit("."), "");
    var collapsed := ReplaceAll(noPeriods, Spaces, " ");
    PeriodsRemoved(spelled, 0);
    SpacesCollapsed(noPeriods, 0);
    assert noPeriods[0..] == noPeriods;
    assert '.' !in collapsed by {
      forall k | 0 <= k < |collapsed| ensures collapsed[k] != '.' {
        assert collapsed[k] == ' ' || collapsed[k] in noPeriods;
      }
    }
    var stripped := Strip(collapsed);
    StripKeepsTidy(collapsed);
    CorrectionsAreTidy(stripped);
    Correct(stripped)
  }

  /** The cleanup of one Application cell. The normalized value is null exactly when the
      scraped value is, and the raw value is the scraped value itself. */
  method NormalizeApplication(application: Option<string>)
    returns (normalized: Option<string>, raw: Option<string>)
    ensures raw == application
    ensures normalized.None? <==> application.None?
    ensures application.Some? ==>
              normalized == Some(Cleanup(Uppercased(TitleCase(application.value))))
    ensures normalized.Some? ==> Tidy(normalized.value)
  {
    raw := application;
    match application
    case None =>
      normalized := None;
    case Some(a) =>
      var titled := TitleCase(a);
      var spelled := UppercaseAcronyms(titled);
      normalized := Some(Cleanup(spelled));
  }

  // ---------------------------------------------------------------------------------------
  // Facts about the last steps

  /** `s` with every `c` left out and every other character kept, in order. */
  function Without(s: string, c: char): (r: string)
    ensures c !in r
    ensures forall d :: d != c ==> (d in r <==> d in s)
    ensures |r| <= |s|
  {
    if s == [] then []
    else
      assert s == [s[0]] + s[1..];
      (if s[0] == c then [] else [s[0]]) + Without(s[1..], c)
  }

  /** Removing the literal `.` drops exactly the periods: the rest of the text is kept, in
      order. */
  lemma {:induction false} PeriodsRemoved(s: string, i: nat)
    requires i <= |s|
    ensures ReplaceFrom(s, Lit("."), "", i) == Without(s[i..], '.')
    ensures '.' !in ReplaceFrom(s, Lit("."), "", i)
    decreases |s| - i
  {
    if i < |s| {
      assert s[i..i + 1] == [s[i]];
      assert s[i..][0] == s[i] && s[i..][1..] == s[i + 1..];
      PeriodsRemoved(s, i + 1);
    }
  }

  /** `s` read character by character with each run of whitespace written as one space: a
      whitespace character is dropped when the one before it was whitespace too. */
  function Squeeze(s: string, afterSpace: bool): string {
    if s == [] then []
    else if IsSpace(s[0]) then (if afterSpace then "" else " ") + Squeeze(s[1..], true)
    else [s[0]] + Squeeze(s[1..], false)
  }

  /** The characters of `s` that are not whitespace, in order. */
  function NonSpace(s: string): (r: string)
    ensures forall k :: 0 <= k < |r| ==> !IsSpace(r[k])
  {
    if s == [] then [] else (if IsSpace(s[0]) then "" else [s[0]]) + NonSpace(s[1..])
  }

  lemma {:induction false} NonSpaceConcat(a: string, b: string)
    ensures NonSpace(a + b) == NonSpace(a) + NonSpace(b)
    decreases |a|
  {
    if a == [] {
      assert a + b == b;
    } else {
      assert (a + b)[0] == a[0] && (a + b)[1..] == a[1..] + b;
      NonSpaceConcat(a[1..], b);
    }
  }

  /** Squeezing whitespace keeps every other character, in order. */
  lemma {:induction false} SqueezeKeepsWords(s: string, afterSpace: bool)
    ensures NonSpace(Squeeze(s, afterSpace)) == NonSpace(s)
    decreases |s|
  {
    if s != [] {
      var lead: string := if IsSpace(s[0]) then (if afterSpace then "" else " ") else [s[0]];
      var rest := Squeeze(s[1..], IsSpace(s[0]));
      assert Squeeze(s, afterSpace) == lead + rest;
      NonSpaceConcat(lead, rest);
      SqueezeKeepsWords(s[1..], IsSpace(s[0]));
    }
  }

  /** A run of whitespace after whitespace adds nothing. */
  lemma {:induction false} SqueezeSkipsRun(s: string, j: nat, e: nat)
    requires j <= e <= |s|
    requires forall k :: j <= k < e ==> IsSpace(s[k])
    ensures Squeeze(s[j..], true) == Squeeze(s[e..], true)
    decreases e - j
  {
    if j < e {
      assert s[j..][0] == s[j] && s[j..][1..] == s[j + 1..];
      SqueezeSkipsRun(s, j + 1, e);
    }
  }

  /** `\s+` replaced by `" "` is the character-by-character squeeze of the text. */
  lemma {:induction false} CollapseIsSqueeze(s: string, i: nat)
    requires i <= |s|
    ensures ReplaceFrom(s, Spaces, " ", i) == Squeeze(s[i..], false)
    decreases |s| - i
  {
    if i < |s| {
      assert s[i..][0] == s[i] && s[i..][1..] == s[i + 1..];
      if IsSpace(s[i]) {
        var n := RunLength(s, i, IsSpace);
        assert ReplaceFrom(s, Spaces, " ", i) == " " + ReplaceFrom(s, Spaces, " ", i + n);
        CollapseIsSqueeze(s, i + n);
        SqueezeSkipsRun(s, i + 1, i + n);
        if i + n < |s| {
          assert s[i + n..][0] == s[i + n] && s[i + n..][1..] == s[i + n + 1..];
        }
      } else {
        CollapseIsSqueeze(s, i + 1);
      }
    }
  }

  /** Collapsing whitespace keeps every other character of the text, in order. */
  lemma CollapseKeepsWords(s: string)
    ensures NonSpace(ReplaceAll(s, Spaces, " ")) == NonSpace(s)
  {
    CollapseIsSqueeze(s, 0);
    assert s[0..] == s;
    SqueezeKeepsWords(s, false);
  }

  /** After `\s+` becomes `" "`: each character is a plain space or a non-space character of
      the input, no two spaces are adjacent, and the output starts with a space exactly when
      the input does. */
  lemma {:induction false} SpacesCollapsed(s: string, i: nat)
    requires i <= |s|
    ensures forall k :: 0 <= k < |ReplaceFrom(s, Spaces, " ", i)| ==>
              var c := ReplaceFrom(s, Spaces, " ", i)[k];
              c == ' ' || (!IsSpace(c) && c in s[i..])
    ensures NoDoubleSpace(ReplaceFrom(s, Spaces, " ", i))
    ensures i < |s| ==>
              ReplaceFrom(s, Spaces, " ", i) != []
              && IsSpace(ReplaceFrom(s, Spaces, " ", i)[0]) == IsSpace(s[i])
    ensures i == |s| ==> ReplaceFrom(s, Spaces, " ", i) == []
    decreases |s| - i
  {
    if i < |s| {
      var out := ReplaceFrom(s, Spaces, " ", i);
      if IsSpace(s[i]) {
        var n := RunLength(s, i, IsSpace);
        var rest := ReplaceFrom(s, Spaces, " ", i + n);
        SpacesCollapsed(s, i + n);
        assert out == [' '] + rest;
        assert s[i..] == s[i..i + n] + s[i + n..];
        CollapsedCons(' ', rest, s[i + n..], s[i..]);
      } else {
        var rest := ReplaceFrom(s, Spaces, " ", i + 1);
        SpacesCollapsed(s, i + 1);
        assert out == [s[i]] + rest;
        assert s[i..] == [s[i]] + s[i + 1..];
        CollapsedCons(s[i], rest, s[i + 1..], s[i..]);
      }
    }
  }

  /** One character in front of collapsed text keeps it collapsed, unless a space would
      meet a space. */
  lemma CollapsedCons(c: char, rest: string, src: string, whole: string)
    requires c == ' ' || (!IsSpace(c) && c in whole)
    requires forall k :: 0 <= k < |rest| ==> rest[k] == ' ' || (!IsSpace(rest[k]) && rest[k] in src)
    requires forall x :: x in src ==> x in whole
    requires NoDoubleSpace(rest)
    requires rest != [] && IsSpace(c) ==> !IsSpace(rest[0])
    ensures forall k :: 0 <= k < |[c] + rest| ==>
              var d := ([c] + rest)[k];
              d == ' ' || (!IsSpace(d) && d in whole)
    ensures NoDoubleSpace([c] + rest)
  {
    var out := [c] + rest;
    forall k | 0 < k < |out| ensures out[k] == ' ' || (!IsSpace(out[k]) && out[k] in whole) {
      assert out[k] == rest[k - 1];
    }
    forall k | 0 <= k < |out| - 1 ensures !(IsSpace(out[k]) && IsSpace(out[k + 1])) {
      if k > 0 {
        assert out[k] == rest[k - 1] && out[k + 1] == rest[k];
      }
    }
  }

  /** Stripping a string whose spaces are plain and single, with no period, leaves it tidy. */
  lemma StripKeepsTidy(s: string)
    requires NoDoubleSpace(s) && '.' !in s
    requires forall k :: 0 <= k < |s| ==> IsSpace(s[k]) ==> s[k] == ' '
    ensures Tidy(Strip(s))
  {
    var r := Strip(s);
    var a, b :| 0 <= a <= b <= |s| && r == s[a..b];
    SliceKeepsSpacing(s, a, b);
  }

  lemma SliceKeepsSpacing(s: string, a: nat, b: nat)
    requires a <= b <= |s|
    requires NoDoubleSpace(s) && '.' !in s
    requires forall k :: 0 <= k < |s| ==> IsSpace(s[k]) ==> s[k] == ' '
    ensures NoDoubleSpace(s[a..b]) && '.' !in s[a..b]
    ensures forall k :: 0 <= k < b - a ==> IsSpace(s[a..b][k]) ==> s[a..b][k] == ' '
  {
    var r := s[a..b];
    forall k | 0 <= k < |r| - 1 ensures !(IsSpace(r[k]) && IsSpace(r[k + 1])) {
      assert r[k] == s[a + k] && r[k + 1] == s[a + k + 1];
    }
    forall k | 0 <= k < |r| ensures r[k] != '.' && (IsSpace(r[k]) ==> r[k] == ' ') {
      assert r[k] == s[a + k];
    }
  }

  /** The replacement values of the corrections table are tidy. */
  lemma DoubleSidedIsTidy()
    ensures Tidy("Tape, Double-Sided")
  {
  }

  lemma ComponentIsTidy()
    ensures Tidy("Electrical Component")
  {
  }

  /** Every replacement in the corrections table is tidy, so a tidy value stays tidy. */
  lemma CorrectionsAreTidy(v: string)
    requires Tidy(v)
    ensures Tidy(Correct(v))
  {
    if v in Corrections {
      DoubleSidedIsTidy();
      ComponentIsTidy();
      var r := Corrections[v];
      assert r == "Tape, Double-Sided" || r == "Capacitor" || r == "Electrical Component"
          || r == "PCB";
    }
  }

  /** Only the exact keys are corrected, and a corrected value is never corrected again. */
  lemma CorrectIdempotent(v: string)
    ensures Correct(Correct(v)) == Correct(v)
    ensures Correct(v) != v <==> v in Corrections
  {
    assert "Tape, Double-Sided" !in Corrections;
    assert "Capacitor" !in Corrections;
    assert "Electrical Component" !in Corrections;
    assert "PCB" !in Corrections;
  }

  /** An exact key is corrected; a value that only contains a key is not. */
  lemma CorrectionExamples()
    ensures Correct("PC Board") == "PCB"
    ensures Correct("2 Side Tape") == "Tape, Double-Sided"
    ensures Correct("PC Boards") == "PC Boards"
  {
  }

  // ---------------------------------------------------------------------------------------
  // Edges of the hand-written matchers

  /** `therm?` makes only the `m` optional: "Ther" and "Therm" match, "Therma" does not;
      `3.?[Dd]` is neither bounded nor case-insensitive, so "3rd" matches as well as "3-D". */
  lemma MatcherEdges()
    ensures MatchAt(Ther, "Therm", 0) == Some(5)
    ensures MatchAt(Ther, "Ther", 0) == Some(4)
    ensures MatchAt(Ther, "Therma", 0) == None
    ensures MatchAt(ThreeD, "3rd", 0) == Some(3)
    ensures MatchAt(ThreeD, "3-D", 0) == Some(3)
  {
  }

  // ---------------------------------------------------------------------------------------
  // A second cleanup can change the value

  /** A character that no rule, acronym, correction or other pattern of the cleanup can
      start at: an `x` or a `y`, in either case, or a period. */
  predicate IsPlainChar(c: char) {
    Lower(c) == 'x' || Lower(c) == 'y' || c == '.'
  }

  predicate Plain(s: string) {
    forall c :: c in s ==> IsPlainChar(c)
  }

  /** The pattern cannot start matching at a plain character. */
  predicate StartsOffPlain(p: Pattern) {
    match p
    case Word(w) => w != [] && !IsPlainChar(w[0])
    case Shape(mt) => mt.Lit? ==> mt.text != [] && !IsPlainChar(mt.text[0])
  }

  lemma PlainWordMisses(s: string, w: string, m: nat)
    requires Plain(s) && w != [] && !IsPlainChar(w[0]) && m <= |s|
    ensures !WordAt(s, m, w)
  {
    if m < |s| {
      assert s[m] in s;
    }
  }

  lemma PlainShapeMisses(s: string, mt: Matcher, j: nat)
    requires Plain(s) && StartsOffPlain(Shape(mt)) && j < |s|
    ensures MatchAt(mt, s, j).None?
  {
    assert s[j] in s;
    match mt
    case Lit(text) =>
      if j + |text| <= |s| {
        assert s[j..j + |text|][0] == s[j] != text[0];
      }
    case Spaces =>
    case AntiStatic => PlainMissesLiteral(s, j, "anti");
    case ElectricalConductive => PlainMissesLiteral(s, j, "electrical");
    case Ther => PlainMissesLiteral(s, j, "ther");
    case ThermConductive => PlainMissesLiteral(s, j, "therm");
    case Matl => PlainMissesLiteral(s, j, "matl"); PlainMissesLiteral(s, j, "mtl");
    case Wrapping => PlainMissesLiteral(s, j, "wra");
    case ThreeD =>
    case ORing =>
  }

  lemma PlainMissesLiteral(s: string, j: nat, lit: string)
    requires Plain(s) && j < |s| && lit != [] && !IsPlainChar(lit[0])
    ensures !CiAt(s, j, lit)
  {
    assert s[j] in s && s[j + 0] == s[j];
  }

  lemma PlainMatchesNowhere(s: string, p: Pattern)
    requires Plain(s) && StartsOffPlain(p)
    ensures MatchesNowhere(s, p)
  {
    match p
    case Word(w) =>
      forall m | 0 <= m <= |s| ensures !WordAt(s, m, w) {
        PlainWordMisses(s, w, m);
      }
    case Shape(mt) =>
      forall j | 0 <= j < |s| ensures MatchAt(mt, s, j).None? {
        PlainShapeMisses(s, mt, j);
      }
  }

  lemma RulesStartOffPlain()
    ensures forall j :: 0 <= j < |Rules| ==> StartsOffPlain(Rules[j].pattern)
  {
  }

  /** The acronym loop leaves a plain text alone. */
  lemma PlainUppercased(s: string)
    requires Plain(s)
    ensures Uppercased(s) == s
  {
    forall a | a in Acronyms.Acronyms ensures InForm(s, a) {
      forall m | 0 <= m <= |s| ensures !WordAt(s, m, a) {
        PlainWordMisses(s, a, m);
      }
    }
    UppercasedUpToFixed(s, |Acronyms.Acronyms|);
  }

  /** No rule of the chain matches a plain text. */
  lemma PlainRulesKeep(s: string)
    requires Plain(s)
    ensures ApplyRules(s, Rules) == s
  {
    RulesStartOffPlain();
    forall j | 0 <= j < |Rules| ensures MatchesNowhere(s, Rules[j].pattern) {
      PlainMatchesNowhere(s, Rules[j].pattern);
    }
    UnmatchedChainKeeps(s, Rules);
  }

  /** Space collapsing, stripping and the corrections keep a plain text. */
  lemma PlainTailKeeps(s: string)
    requires Plain(s)
    ensures Correct(Strip(ReplaceAll(s, Spaces, " "))) == s
  {
    forall j | 0 <= j < |s| ensures MatchAt(Spaces, s, j).None? {
      PlainShapeMisses(s, Spaces, j);
    }
    if s != [] {
      assert s[0] in s && s[|s| - 1] in s;
      StripKeepsClean(s, IsSpace);
      PlainIsNoKey(s);
    }
  }

  /** Every correction key starts with a character a plain text cannot hold. */
  lemma PlainIsNoKey(s: string)
    requires s != [] && IsPlainChar(s[0])
    ensures s !in Corrections
  {
    assert forall k :: k in Corrections ==> k != [] && !IsPlainChar(k[0]);
  }

  /** Of a plain text the cleanup removes the periods and nothing else. */
  lemma PlainCleanup(s: string)
    requires Plain(s)
    ensures Cleanup(s) == Without(s, '.')
  {
    PlainRulesKeep(s);
    PeriodsRemoved(s, 0);
    assert s[0..] == s;
    assert ReplaceAll(s, Lit("."), "") == Without(s, '.');
    PlainTailKeeps(Without(s, '.'));
  }

  /** Title case capitalizes the letter after a period. */
  lemma TitleCaseAfterPeriod()
    ensures TitleCase("x.y") == "X.Y" && TitleCase("XY") == "Xy"
  {
    TitleCaseSpec("x.y");
    TitleCaseSpec("XY");
  }

  lemma PlainExamples()
    ensures Plain("X.Y") && Plain("Xy")
    ensures Without("X.Y", '.') == "XY" && Without("Xy", '.') == "Xy"
  {
  }

  /** Normalizing a normalized value again can change it, so the cleanup is not idempotent:
      "x.y" is title-cased to "X.Y" and loses its period, giving "XY", which a second pass
      title-cases to "Xy". */
  lemma NormalizingTwiceDiffers()
    ensures Cleanup(Uppercased(TitleCase("x.y"))) == "XY"
    ensures Cleanup(Uppercased(TitleCase("XY"))) == "Xy"
  {
    TitleCaseAfterPeriod();
    PlainExamples();
    PlainUppercased("X.Y");
    PlainCleanup("X.Y");
    PlainUppercased("Xy");
    PlainCleanup("Xy");
  }
}
