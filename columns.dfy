/** The final column order (main.py:188-205): the ordered set of the ten main columns,
    united with the ordered set of the frame's columns minus the main ones. */
module Columns {
  import opened Seqs

  /** The main columns, in the order they are written first. */
  const Priority: seq<string> := [
    "Material", "Application", "TML_Pct", "WVR_Pct", "CVCM_Pct", "RML_Pct", "Year",
    "SpaceX_Classification", "Data_Ref", "Manufacturer"
  ]

  lemma PriorityIsDistinct()
    ensures Distinct(Priority)
  {
  }

  /** `list(main_cols | (OrderedSet(columns) - main_cols))`: the ten main names in their
      listed order, then every other column once, in its original order. */
  function OrderColumns(columns: seq<string>): (r: seq<string>)
    ensures |r| >= |Priority| && r[..|Priority|] == Priority
    ensures Distinct(r)
    ensures forall c :: c in r <==> c in Priority || c in columns
    ensures InFirstOccurrenceOrder(r[|Priority|..], columns)
  {
    var main := KeepFirst(Priority);
    var others := Minus(KeepFirst(columns), main);
    PriorityIsDistinct();
    KeepFirstOfDistinct(Priority);
    KeepFirstSpec(columns);
    MinusKeepsOrder(KeepFirst(columns), main, columns);
    DistinctConcat(main, others);
    KeepFirstOfDistinct(main + others);
    assert (main + others)[..|Priority|] == Priority;
    assert (main + others)[|Priority|..] == others;
    KeepFirst(main + others)
  }

  /** The union adds nothing the two ordered sets did not hold: the result is the main names
      followed by the other columns. */
  lemma OrderColumnsIsConcatenation(columns: seq<string>)
    ensures OrderColumns(columns) == Priority + Minus(KeepFirst(columns), Priority)
  {
    PriorityIsDistinct();
    KeepFirstOfDistinct(Priority);
    var others := Minus(KeepFirst(columns), Priority);
    KeepFirstSpec(columns);
    MinusKeepsOrder(KeepFirst(columns), Priority, columns);
    DistinctConcat(Priority, others);
    KeepFirstOfDistinct(Priority + others);
  }

  lemma ExtraIsNotMain()
    ensures "Extra" !in Priority && "Year" in Priority
  {
    assert Priority[6] == "Year";
  }

  lemma MinusExample()
    ensures Minus(["Extra", "Year"], Priority) == ["Extra"]
  {
    ExtraIsNotMain();
    var cols := ["Extra", "Year"];
    assert cols[..1] == ["Extra"] && cols[1] == "Year";
    assert ["Extra"][..0] == [] && ["Extra"][0] == "Extra";
    assert Minus(["Extra"], Priority) == Minus([], Priority) + ["Extra"];
    assert Minus(cols, Priority) == Minus(["Extra"], Priority);
  }

  /** Main columns missing from the frame are still listed, and a main column the frame
      lists after another column still comes first. */
  lemma OrderExample()
    ensures OrderColumns(["Extra", "Year"]) == Priority + ["Extra"]
  {
    var cols := ["Extra", "Year"];
    assert Distinct(cols);
    KeepFirstOfDistinct(cols);
    MinusExample();
    OrderColumnsIsConcatenation(cols);
  }
}
