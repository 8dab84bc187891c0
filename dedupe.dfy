/** `df.unique(maintain_order=True)` over whole rows (main.py:78-82): repeated rows are
    dropped, the first occurrence of each is kept, and the number removed is logged. */
module Dedupe {
  import opened Seqs

  /** The rows without repetitions, each kept at its first occurrence, and how many rows
      were removed. */
  method Unique<Row(==)>(rows: seq<Row>) returns (kept: seq<Row>, removed: nat)
    ensures kept == KeepFirst(rows)
    ensures Distinct(kept)
    ensures forall row :: row in kept <==> row in rows
    ensures InFirstOccurrenceOrder(kept, rows)
    ensures removed == |rows| - |kept|
  {
    kept := [];
    for i := 0 to |rows|
      invariant kept == KeepFirst(rows[..i])
    {
      assert rows[..i + 1][..i] == rows[..i];
      if rows[i] !in kept {
        kept := kept + [rows[i]];
      }
    }
    assert rows[..|rows|] == rows;
    KeepFirstSpec(rows);
    removed := |rows| - |kept|;
  }

  /** Two copies of a row collapse into the first. */
  method UniqueExample() returns (kept: seq<string>, removed: nat)
    ensures kept == ["A", "B"] && removed == 1
  {
    kept, removed := Unique(["A", "B", "A"]);
    assert ["A", "B", "A"][..2] == ["A", "B"];
    assert KeepFirst(["A", "B"]) == ["A", "B"] by {
      assert ["A", "B"][..1] == ["A"];
      assert ["A"][..0] == [];
    }
  }
}
