/** The acronym loop of the Application cleanup (main.py:107-135): for each acronym in turn,
    every whole-word, case-insensitive occurrence is rewritten in the acronym's capitals. */
module Acronyms {
  import opened Text
  import opened Rewrite
  import opened WordCase

  /** The acronyms in the order the loop visits them; `PCB` is listed twice, as in the source. */
  const Acronyms: seq<string> := [
    "RF", "RFI", "EMC", "EMI", "ESD", "UV", "DVD", "IC", "ID",
    "PC", "PCB", "LED", "LCD", "TC", "LRO", "PCB"
  ]

  /** A non-empty word of capital letters. */
  predicate IsCapitalWord(a: string) {
    |a| > 0 && forall k :: 0 <= k < |a| ==> 'A' <= a[k] <= 'Z'
  }

  lemma AcronymsAreCapitalWords()
    ensures forall j :: 0 <= j < |Acronyms| ==> IsCapitalWord(Acronyms[j])
    ensures forall j :: 0 <= j < |Acronyms| ==> IsWordLiteral(Acronyms[j])
  {
  }

  /** Capital words that agree up to case are the same word. */
  lemma CapitalWordsAreCaseDistinct(a: string, b: string)
    requires IsCapitalWord(a) && IsCapitalWord(b) && CaseEquivalent(a, b)
    ensures a == b
  {
    forall k | 0 <= k < |a| ensures a[k] == b[k] {
      assert Lower(a[k]) as int == a[k] as int + 32;
      assert Lower(b[k]) as int == b[k] as int + 32;
    }
  }

  lemma CaseEquivalentTransitive(a: string, b: string, c: string)
    requires CaseEquivalent(a, b) && CaseEquivalent(b, c)
    ensures CaseEquivalent(a, c)
  {
  }

  /** The value after the first `n` iterations of the loop; only letter case has changed. */
  function UppercasedUpTo(s: string, n: nat): (r: string)
    requires n <= |Acronyms|
    ensures CaseEquivalent(r, s)
  {
    if n == 0 then s
    else
      var before := UppercasedUpTo(s, n - 1);
      var w := Acronyms[n - 1];
      AcronymsAreCapitalWords();
      ReplaceFromKeepsLetters(before, w, w, 0);
      assert before[0..] == before;
      CaseEquivalentTransitive(ReplaceWord(before, w, w), before, s);
      ReplaceWord(before, w, w)
  }

  /** The value after the whole loop; only letter case has changed. */
  function Uppercased(s: string): (r: string)
    ensures CaseEquivalent(r, s)
  {
    UppercasedUpTo(s, |Acronyms|)
  }

  /** One iteration keeps every acronym that was already spelt out. */
  lemma IterationKeepsForm(before: string, iw: nat, iv: nat)
    requires iw < |Acronyms| && iv < |Acronyms|
    requires InForm(before, Acronyms[iv])
    ensures InForm(ReplaceWord(before, Acronyms[iw], Acronyms[iw]), Acronyms[iv])
  {
    var w, v := Acronyms[iw], Acronyms[iv];
    AcronymsAreCapitalWords();
    assert IsWordLiteral(w) && IsWordLiteral(v);
    if v == w {
      ReplaceSetsForm(before, w);
    } else {
      if CaseEquivalent(v, w) { CapitalWordsAreCaseDistinct(v, w); }
      KeepsOtherForms(before, w, v);
    }
  }

  /** After `n` iterations only letter case has changed, and each acronym visited so far is
      spelt in capitals wherever it occurs as a whole word. */
  lemma {:induction false} UppercasedUpToInForm(s: string, n: nat)
    requires n <= |Acronyms|
    ensures CaseEquivalent(UppercasedUpTo(s, n), s)
    ensures forall j :: 0 <= j < n ==> InForm(UppercasedUpTo(s, n), Acronyms[j])
  {
    if n > 0 {
      UppercasedUpToInForm(s, n - 1);
      IterationInForm(UppercasedUpTo(s, n - 1), UppercasedUpTo(s, n), n);
    }
  }

  /** Iteration `n` spells out its own acronym and keeps the earlier ones spelt out. */
  lemma IterationInForm(before: string, after: string, n: nat)
    requires 0 < n <= |Acronyms|
    requires after == ReplaceWord(before, Acronyms[n - 1], Acronyms[n - 1])
    requires forall j :: 0 <= j < n - 1 ==> InForm(before, Acronyms[j])
    ensures forall j :: 0 <= j < n ==> InForm(after, Acronyms[j])
  {
    IterationSpellsOwn(before, n - 1);
    forall j | 0 <= j < n - 1 ensures InForm(after, Acronyms[j]) {
      IterationKeepsForm(before, n - 1, j);
    }
  }

  lemma IterationSpellsOwn(before: string, iw: nat)
    requires iw < |Acronyms|
    ensures InForm(ReplaceWord(before, Acronyms[iw], Acronyms[iw]), Acronyms[iw])
  {
    AcronymsAreCapitalWords();
    ReplaceSetsForm(before, Acronyms[iw]);
  }

  /** Spelling out acronyms that are already spelt out changes nothing. */
  lemma {:induction false} UppercasedUpToFixed(s: string, n: nat)
    requires n <= |Acronyms|
    requires forall a :: a in Acronyms ==> InForm(s, a)
    ensures UppercasedUpTo(s, n) == s
  {
    if n > 0 {
      UppercasedUpToFixed(s, n - 1);
      AcronymsAreCapitalWords();
      var w := Acronyms[n - 1];
      assert w in Acronyms && IsWordLiteral(w);
      ReplaceInFormIsIdentity(s, w, w, 0);
    }
  }

  /** After the loop every acronym is in capitals wherever it occurs as a whole word, and
      nothing but letter case has changed. */
  lemma UppercasedInForm(s: string)
    ensures CaseEquivalent(Uppercased(s), s)
    ensures forall a :: a in Acronyms ==> InForm(Uppercased(s), a)
  {
    UppercasedUpToInForm(s, |Acronyms|);
    forall a | a in Acronyms ensures InForm(Uppercased(s), a) {
      var j :| 0 <= j < |Acronyms| && Acronyms[j] == a;
    }
  }

  /** Running the loop a second time changes nothing. */
  lemma UppercasedIdempotent(s: string)
    ensures Uppercased(Uppercased(s)) == Uppercased(s)
  {
    UppercasedInForm(s);
    UppercasedUpToFixed(Uppercased(s), |Acronyms|);
  }

  /** The loop of main.py:132-135 over one Application value. */
  method UppercaseAcronyms(application: string) returns (r: string)
    ensures r == Uppercased(application)
    ensures CaseEquivalent(r, application)
    ensures forall a :: a in Acronyms ==> InForm(r, a)
  {
    r := application;
    for i := 0 to |Acronyms|
      invariant r == UppercasedUpTo(application, i)
    {
      r := ReplaceWord(r, Acronyms[i], Acronyms[i]);
    }
    UppercasedInForm(application);
  }
}
