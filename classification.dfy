/** The SpaceX classification column (main.py:86-105): a `when/then` chain over the RML and
    CVCM percentages in which the first condition that is true wins. Comparisons with a
    null are null, `&` and `|` follow three-valued (Kleene) logic, and a null condition
    counts as not met. */
module Classification {
  import opened Options

  /** Three-valued conjunction (`&` on boolean columns): false wins over null. */
  function And3(a: Option<bool>, b: Option<bool>): (r: Option<bool>)
    ensures r.None? <==> (a.None? || b.None?) && a != Some(false) && b != Some(false)
    ensures r == Some(false) <==> a == Some(false) || b == Some(false)
    ensures r == Some(true) <==> a == Some(true) && b == Some(true)
  {
    match (a, b)
    case (Some(false), _) => Some(false)
    case (_, Some(false)) => Some(false)
    case (Some(true), Some(true)) => Some(true)
    case _ => None
  }

  /** Three-valued disjunction (`|` on boolean columns): true wins over null. */
  function Or3(a: Option<bool>, b: Option<bool>): (r: Option<bool>)
    ensures r.None? <==> (a.None? || b.None?) && a != Some(true) && b != Some(true)
    ensures r == Some(true) <==> a == Some(true) || b == Some(true)
    ensures r == Some(false) <==> a == Some(false) && b == Some(false)
  {
    match (a, b)
    case (Some(true), _) => Some(true)
    case (_, Some(true)) => Some(true)
    case (Some(false), Some(false)) => Some(false)
    case _ => None
  }

  /** `x <= bound`, null when `x` is. */
  function AtMost(x: Option<real>, bound: real): (r: Option<bool>)
    ensures r.None? <==> x.None?
  {
    match x
    case None => None
    case Some(v) => Some(v <= bound)
  }

  /** `x > bound`, null when `x` is. */
  function Above(x: Option<real>, bound: real): (r: Option<bool>)
    ensures r.None? <==> x.None?
  {
    match x
    case None => None
    case Some(v) => Some(v > bound)
  }

  /** A `when` condition is met only when it is true; null counts as not met. */
  predicate Met(condition: Option<bool>) {
    condition == Some(true)
  }

  datatype Label = Pass | CodeA | CodeB | Fail

  /** The text written to the `SpaceX_Classification` column. */
  function LabelText(l: Label): (text: string)
    ensures text in {"Pass", "Rationale Code A (up to 2 sq-in)",
                     "Rationale Code B (up to 0.25 sq-in)", "Fail"}
  {
    match l
    case Pass => "Pass"
    case CodeA => "Rationale Code A (up to 2 sq-in)"
    case CodeB => "Rationale Code B (up to 0.25 sq-in)"
    case Fail => "Fail"
  }

  /** The decision list. Each label is characterised outright: Pass and Code A need both
      values, Code B needs only one value over its limit, and Fail is what is left when a
      missing value leaves every rule unmet. */
  function Classify(rml: Option<real>, cvcm: Option<real>): (l: Label)
    ensures l == Pass <==>
              rml.Some? && cvcm.Some? && rml.value <= 1.0 && cvcm.value <= 0.1
    ensures l == CodeA <==>
              rml.Some? && cvcm.Some? && 1.0 < rml.value <= 3.0 && cvcm.value <= 0.1
    ensures l == CodeB <==>
              (rml.Some? && rml.value > 3.0) || (cvcm.Some? && cvcm.value > 0.1)
    ensures l == Fail <==>
              (rml.None? || cvcm.None?)
              && !(rml.Some? && rml.value > 3.0) && !(cvcm.Some? && cvcm.value > 0.1)
  {
    if Met(And3(AtMost(rml, 1.0), AtMost(cvcm, 0.1))) then Pass
    else if Met(And3(AtMost(rml, 3.0), AtMost(cvcm, 0.1))) then CodeA
    else if Met(Or3(Above(rml, 3.0), Above(cvcm, 0.1))) then CodeB
    else Fail
  }

  /** With both values known some rule always applies. */
  lemma KnownValuesNeverFail(rml: real, cvcm: real)
    ensures Classify(Some(rml), Some(cvcm)) != Fail
  {
  }

  /** A null RML still allows Code B through CVCM, but a null CVCM with a low RML fails. */
  lemma NullExamples()
    ensures Classify(None, Some(0.5)) == CodeB
    ensures Classify(Some(0.5), None) == Fail
    ensures Classify(Some(0.5), Some(0.05)) == Pass
    ensures Classify(Some(2.0), Some(0.1)) == CodeA
    ensures Classify(Some(3.5), None) == CodeB
  {
  }
}
