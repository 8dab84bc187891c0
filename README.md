# NASA outgassing scraper — a Dafny model

The scraper downloads the NASA outgassing data table page by page. It shapes each page into
typed columns and de-duplicates the rows. It adds a SpaceX classification column, cleans up
the free-text `Application` column, and puts the columns in a fixed order. This project
models those steps over plain values (strings, sequences, exact reals) and proves the
properties the code promises:

- **Pagination** (`Pagination`): pages 1, 2, 3, … are fetched until the first page whose
  body has no `<table`. The tables before it are concatenated in fetch order. Fetching is a
  function parameter `nat -> Option<seq<R>>`. Termination assumes that some page has no
  table.
- **Row shaping** (`Shaping`):
  - Cells are stripped, and an empty cell becomes null.
  - Four header labels are renamed. Then every label is stripped and its spaces become `_`.
  - `TML_Pct`, `WVR_Pct` and `CVCM_Pct` are parsed as exact decimals. The text-to-decimal
    parser is a parameter.
  - `RML_Pct = TML_Pct - coalesce(WVR_Pct, 0)`.
- **De-duplication** (`Dedupe`): the first occurrence of each row is kept.
- **Classification** (`Classification`): a first-match decision list. It uses three-valued
  logic, and a null condition counts as not met.
- **Application cleanup**:
  - `Text` holds the character classes, case folding and stripping.
  - `Rewrite` holds the regular-expression replacements, each with a hand-written matcher.
  - `WordCase` and `Acronyms` hold the acronym loop.
  - `Application` holds title case, the rule chain and the table of exact corrections.
- **Column order** (`Columns`): the ten main columns come first, then the others in their
  original order.

`Options` holds `Option` and `Result`. `Seqs` holds the ordered-set helpers (`Distinct`,
`KeepFirst`, `Minus`) shared by de-duplication and column ordering.

Regular expressions are modelled over ASCII:

- `\w` is `[A-Za-z0-9_]`.
- `\s` is space, tab, newline, carriage return, vertical tab and form feed.
- `(?i)` is ASCII case folding.
- `\b` is a change between word and non-word characters, with the ends of the string
  counting as non-word.
- A matcher returns the length of the match a leftmost-first, backtracking engine reports at
  a position. The scan then continues after the match. Boundaries are judged on the string
  before the replacement.

Where the code and its docs read differently, the model follows the code:

- `(?i)\b(therm?)\b` makes only the `m` optional. It matches "Ther" and "Therm" but not
  "Therma" (`Application.MatcherEdges`).
- `Raw_Application` is the scraped value, not the title-cased one. Both expressions in the
  same `with_columns` call read the input frame (main.py:128-131).
- `3.?[Dd]` has no word boundary and is case-sensitive, so "3rd" becomes "3D" as well.
- The whole cleanup is not idempotent (`Application.NormalizingTwiceDiffers`). Title case
  capitalises the letter after a period, and the period is removed later. So "x.y" becomes
  "XY", and a second pass turns that into "Xy". The acronym loop, the title case and the
  corrections table are each proved idempotent.

## Model

| member | source | states |
|---|---|---|
| Pagination.ScrapePages | main.py:60-76 | Requested page numbers run 1, 2, …, n with no gap and stop at the first page without a table; every earlier page had one; the result is the concatenation of those pages in fetch order, or `NoPages` (the `pl.concat([])` error) when page 1 has no table |
| Pagination.OccursFrom | main.py:18 | The substring search is true exactly when `<table` occurs at some position |
| Pagination.ScrapePage | main.py:13-27 | A page is absent exactly when its body contains no `<table`; otherwise it is the shaped table |
| Shaping.CleanCell | main.py:33 | A cell is null exactly when it was null or all whitespace; otherwise it is the stripped text, non-empty and with no surrounding whitespace |
| Shaping.Rename | main.py:34-41 | A label is renamed exactly when it is one of the four rename sources, and a renamed label is not a source again |
| Shaping.Underscored | main.py:42 | Each space becomes `_`, every other character is kept, and the length is unchanged |
| Shaping.HeaderLabel | main.py:34-42 | A cleaned header label contains no space |
| Shaping.FirstAbsent | main.py:34-41 | No label is reported exactly when every required label is present; a reported label is required and absent |
| Shaping.FirstRepeated | main.py:34-42 | No label is reported exactly when the labels are distinct; a reported label occurs twice |
| Shaping.ShapeHeaders | main.py:34-52 | The labels are accepted exactly when the four rename sources are present, the cleaned labels are distinct and `Year` is among them; accepted labels are the cleaned labels and contain no space |
| Shaping.TmlBecomes | main.py:36 | `TML %` becomes `TML_Pct` |
| Shaping.WvrBecomes | main.py:37 | `WVR` becomes `WVR_Pct` |
| Shaping.CvcmBecomes | main.py:38 | `CVCM` becomes `CVCM_Pct` |
| Shaping.MfrBecomes | main.py:39 | `Mfr.` becomes `Manufacturer` |
| Shaping.ShapedHeadersHaveColumns | main.py:34-52 | An accepted page has `TML_Pct`, `WVR_Pct`, `CVCM_Pct`, `Manufacturer` and `Year` |
| Shaping.ToDecimal | main.py:43-49 | The strict decimal cast fails exactly on non-null text the parser rejects; null stays null; otherwise the value is the parsed number |
| Shaping.ShapeCell | main.py:33-49 | A cell fails exactly when its column is a decimal column and the parser rejects its cleaned, non-null text; a shaped cell is a decimal exactly in the decimal columns |
| Shaping.ShapedTextIsClean | main.py:33-49 | A shaped cell outside the decimal columns is the cleaned text; a decimal cell is null exactly when the cleaned text is |
| Shaping.ShapeCells | main.py:33-49 | A row shapes exactly when each of its cells does, and the shaped row is the shaped cells in column order |
| Shaping.Rml | main.py:54 | RML is null exactly when TML is; adding WVR back gives TML; with WVR null, RML is TML |
| Shaping.WithColumn | main.py:50-55 | The old columns keep their positions; the new name is appended unless it is already a column, and it is present afterwards |
| Shaping.WithCell | main.py:50-55 | The new cell sits at the new column's position and every other cell is unchanged |
| Shaping.ShapeRow | main.py:29-56 | A row shapes exactly when its cells do; it has one cell per output column, and each input column's cell is that column's shaped cell |
| Shaping.AmountOfCast | main.py:43-49 | The decimal read back from a shaped row is the cast of that raw cell |
| Shaping.RowRml | main.py:54 | The `RML_Pct` cell of a row is `Rml` of the row's own cast TML and WVR cells |
| Shaping.AllOrFirstError | main.py:29-56 | Per-row results combine exactly when every row succeeds, into the row values in order; otherwise the error is one of the rows' errors |
| Shaping.ShapeRows | main.py:29-56 | A page's rows shape exactly when each row does, and in order |
| Shaping.ShapePage | main.py:29-56 | A page shapes exactly when its headers are accepted and every row shapes; a shaped page has the cleaned labels plus `RML_Pct`, and its rows are the shaped input rows in order |
| Dedupe.Unique | main.py:78-82 | The kept rows have no repeats, hold exactly the input's rows, follow the order of first occurrences, and the removed count is the length difference |
| Dedupe.UniqueExample | main.py:79 | `[A, B, A]` keeps `[A, B]` and removes one row |
| Seqs.KeepFirstSpec | main.py:79 | Keeping first occurrences gives distinct elements, the same membership, first-occurrence order and no greater length |
| Seqs.KeepFirstOfDistinct | main.py:189-204 | A sequence with no repeats is its own ordered set |
| Seqs.Minus | main.py:203 | The ordered-set difference holds exactly the elements of the first operand that are not in the second |
| Seqs.MinusKeepsOrder | main.py:203 | The difference keeps the operand's lack of repeats and its order |
| Classification.And3 | main.py:90 | `&` is false when either side is false, true when both are true, and null otherwise |
| Classification.Or3 | main.py:100 | `\|` is true when either side is true, false when both are false, and null otherwise |
| Classification.AtMost | main.py:90 | A comparison with null is null |
| Classification.Above | main.py:100 | A comparison with null is null |
| Classification.LabelText | main.py:92-103 | The column holds one of the four label texts |
| Classification.Classify | main.py:86-104 | Closed forms of each label: Pass needs RML ≤ 1.0 and CVCM ≤ 0.1; Code A needs 1.0 < RML ≤ 3.0 and CVCM ≤ 0.1; Code B holds exactly when a known RML is over 3.0 or a known CVCM is over 0.1; Fail holds exactly when a value is null and neither known value is over its limit |
| Classification.KnownValuesNeverFail | main.py:88-103 | With both values known the label is never Fail |
| Classification.NullExamples | main.py:88-103 | Null RML with CVCM 0.5 gives Code B; RML 0.5 with null CVCM gives Fail |
| Text.StripWith | main.py:168 | Stripping removes a prefix and a suffix of stripped characters and no more; the result neither starts nor ends with one, and it is empty exactly when every character is stripped |
| Text.StripKeepsClean | main.py:42 | A string that neither starts nor ends with a stripped character is kept whole |
| Rewrite.MatchAt | main.py:139-163 | A match is non-empty and lies within the string |
| Rewrite.ThermTail | main.py:154 | On a match, `.conductive` and a boundary follow the chosen run of `\w*`, and no longer run up to the greedy maximum lets them follow; with no match, no run does |
| Rewrite.MatlTail | main.py:157 | The longest suffix of `s?\.?` (at most two characters) that a word boundary follows is chosen; there is none exactly when no suffix length fits |
| Rewrite.NoMatchKept | main.py:138-167 | The scan from a position copies the rest of a text the pattern matches nowhere in |
| Rewrite.ReplaceAll | main.py:138-167 | `replace_all` keeps a text the pattern matches nowhere in |
| Rewrite.NoWordKept | main.py:134-165 | Replacing a whole word that does not occur keeps the text |
| Rewrite.ApplyRulesInOrder | main.py:136-165 | The chain applies its rules one after another: running a chain split in two is running the first part, then the second on its output |
| Rewrite.UnmatchedChainKeeps | main.py:136-165 | A text that no rule of the chain matches comes out unchanged |
| WordCase.ReplaceFromKeepsLetters | main.py:134 | Replacing a word by a same-letters spelling changes only letter case |
| WordCase.ReplaceSetsForm | main.py:134 | After one acronym's replacement, every whole-word occurrence of it is spelt in its capitals |
| WordCase.KeepsOtherForms | main.py:132-135 | Replacing one acronym keeps every other acronym's spelling |
| WordCase.ReplaceInFormIsIdentity | main.py:134 | Replacing a word that is already spelt as the replacement changes nothing |
| WordCase.NoWordFrom | main.py:139-159 | When the replacement is not a case variant of the word, no whole-word occurrence of the word starts in what the scan writes |
| WordCase.ExpandedWordIsGone | main.py:139-159 | After a whole word is replaced by a word that is not a case variant of it, the word no longer occurs as a whole word |
| Acronyms.UppercasedUpToInForm | main.py:132-135 | After n iterations only case has changed, and each acronym visited so far is in capitals |
| Acronyms.UppercasedUpTo | main.py:132-135 | After any number of iterations only letter case has changed |
| Acronyms.Uppercased | main.py:132-135 | After the whole loop only letter case has changed |
| Acronyms.UppercasedInForm | main.py:132-135 | After the loop every acronym is spelt in capitals wherever it occurs as a whole word, and only letter case has changed |
| Acronyms.UppercasedIdempotent | main.py:132-135 | Running the acronym loop twice gives the same value as running it once |
| Acronyms.UppercaseAcronyms | main.py:132-135 | The loop's result changes only letter case, and every listed acronym is in capitals wherever it occurs as a whole word |
| Application.TitleCaseSpec | main.py:129 | Title case capitalises a character that starts a word (first, or after a non-alphanumeric character), lower-cases the rest, and changes only case |
| Application.TitleCaseIdempotent | main.py:129 | Title-casing twice is title-casing once |
| Application.TitleFromPointwise | main.py:129 | From any position, title casing capitalises each character that starts a word and lower-cases the rest; the first character follows the flag |
| Application.TitleCase | main.py:129 | Title case changes only letter case |
| Application.TitleCaseAfterPeriod | main.py:129 | The letter after a period starts a word: "x.y" becomes "X.Y", and "XY" becomes "Xy" |
| Application.WordRuleTakesEffect | main.py:139-165 | After each whole-word rule, an expanded word no longer occurs, and `and` and `for` are spelt in lower case wherever they occur |
| Application.Without | main.py:166 | The character is left out, every other character occurs exactly when it did, and the text gets no longer |
| Application.PeriodsRemoved | main.py:166 | Removing `.` gives the text with its periods left out and every other character kept, in order |
| Application.CollapseIsSqueeze | main.py:161 | Replacing `\s+` by one space is the character-by-character squeeze that drops whitespace right after whitespace |
| Application.SqueezeKeepsWords | main.py:161 | Squeezing keeps the non-whitespace characters, in order |
| Application.SpacesCollapsed | main.py:161 | After `\s+` becomes one space, every whitespace character is a plain space, none is next to another, and the other characters come from the input |
| Application.CollapseKeepsWords | main.py:161 | The non-whitespace characters after collapsing are those of the input, in order |
| Application.StripKeepsTidy | main.py:167-168 | Stripping single-spaced, period-free text leaves it with no whitespace at either end |
| Application.CorrectionsAreTidy | main.py:169-180 | The corrections table maps tidy text to tidy text |
| Application.CorrectIdempotent | main.py:169-180 | Only exact keys change, and a corrected value is not corrected again |
| Application.CorrectionExamples | main.py:169-180 | "PC Board" becomes "PCB" and "2 Side Tape" becomes "Tape, Double-Sided", while "PC Boards", which only contains a key, is kept |
| Application.Correct | main.py:169-180 | A value changes exactly when it is a key of the table, and what it becomes is not a key |
| Application.Cleanup | main.py:136-181 | The cleaned value has no period, no two whitespace characters in a row, no whitespace other than plain spaces, and none at either end |
| Application.NormalizeApplication | main.py:126-181 | A null Application stays null; the raw value is the scraped value; a cleaned value is title case, then the acronym loop, then the cleanup, and it is tidy |
| Application.PlainUppercased | main.py:132-135 | The acronym loop keeps a text made only of `x`, `y` and periods, since no acronym starts with those |
| Application.PlainRulesKeep | main.py:138-165 | No rule of the chain changes such a text |
| Application.PlainCleanup | main.py:136-181 | Of such a text the cleanup removes only the periods |
| Application.NormalizingTwiceDiffers | main.py:128-181 | Normalizing a normalized value can change it: "x.y" becomes "XY", and "XY" becomes "Xy" |
| Application.MatcherEdges | main.py:152-162 | `therm?` matches "Ther" and "Therm" but not "Therma"; `3.?[Dd]` matches "3rd" and "3-D" |
| Columns.OrderColumns | main.py:189-205 | The result starts with the ten main names in order, has no repeats, holds exactly the main names and the frame's columns, and the remaining columns keep their original order |
| Columns.OrderColumnsIsConcatenation | main.py:203-204 | The union is the main names followed by the other columns |
| Columns.MinusExample | main.py:203 | `[Extra, Year]` without the main names is `[Extra]` |
| Columns.OrderExample | main.py:189-205 | `[Extra, Year]` gives the ten main names followed by `Extra` |

## Left out

- HTTP requests, `raise_for_status`, and the HTML reader (main.py:14-27) are I/O and a
  foreign library. `ScrapePage` takes the response body and the table the reader returns as
  parameters. `ScrapePages` takes the whole page fetch as a parameter.
- Pagination.ScrapePages: an exception raised while fetching or shaping a page ends the
  scrape at once. The loop model assumes every fetch returns a value.
- Pagination.ScrapePages: `pl.concat` also fails when two pages have different schemas. The
  model concatenates rows without checking this.
- Shaping.ShapePage: `read_html` can fail even when a body contains `<table`, for example on
  malformed HTML. That failure is not modelled.
- The cast of `Year` through `Float64` to `UInt16` (main.py:52) involves floating point and
  is left out. `Year` stays text; only its presence is checked, because the cast raises
  when the column is missing.
- The `0.0` float in `fill_null(0.0)` is modelled as the exact `0`.
- Decimal parsing is the `parse` parameter of `ShapePage`. A value it rejects is the error
  `NotDecimal`.
- Unicode: title case, `\w`, `\s`, `\b`, case folding and `strip` are modelled over ASCII.
  Python's `str.strip` (used for header labels) also removes the separator controls
  0x1C-0x1F in this model.
- Application.TitleCaseSpec: `str.to_titlecase` is modelled by an ASCII rule (capitalise at
  the start and after a non-alphanumeric character, lower-case otherwise). The polars
  implementation may treat apostrophes and non-ASCII letters differently.
- Dedupe.Unique: `unique(maintain_order=True)` keeps any one of the identical copies. Since
  the copies are equal, the model keeps the first.
- Columns.OrderColumns: `df.select` raises when a main name is missing from the frame. The
  model computes only the column list.
- Logging (`loguru`), the CSV, Parquet and Excel writers, and `main` (main.py:216-229) are
  I/O.
- The dataframe libraries themselves (`pandas`, `polars`) are represented only by the
  behaviour of the calls the code makes.
- Rewrite.MatchAt: its contract states only that a match is non-empty and in bounds. Each
  pattern's exact matching behaviour is its definition, with edge cases pinned by
  `Application.MatcherEdges`. The two backtracking parts, `Rewrite.ThermTail` and
  `Rewrite.MatlTail`, state which alternative the engine picks.
- Application.NormalizeApplication: no idempotence is stated, because a second cleanup can
  change a cleaned value. Title case capitalises the letter after a period that is removed
  later ("x.y", `Application.NormalizingTwiceDiffers`). Period removal also runs after the
  word rules, so "Elec. Conductive" becomes "Electrical Conductive", and only a second pass
  would make it "Electrically-Conductive".
- Application.Rules: the chain has no all-inputs statement of its final text; the rule
  effects are stated one rule at a time (`Application.WordRuleTakesEffect`), with
  end-to-end behaviour shown only on the plain texts of `Application.PlainCleanup`.
