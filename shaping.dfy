/** The shaping of one scraped page (main.py:29-56): every cell is stripped and an empty
    cell becomes null, the header labels are renamed and cleaned, the three percentage
    columns are cast to exact decimals, and `RML_Pct` is derived from `TML_Pct` and
    `WVR_Pct`. The decimal parser is a parameter. */
module Shaping {
  import opened Options
  import opened Text
  import opened Seqs

  datatype ShapeError =
    | MissingColumn(name: string)            // a column the renaming or the Year cast needs
    | DuplicateColumn(name: string)          // two columns end up with the same label
    | NotDecimal(column: string, text: string)

  // ---------------------------------------------------------------------------------------
  // Cells

  /** `str.strip_chars()` then `replace("", None)`: null, or the stripped text when some of
      it is left. */
  function CleanCell(raw: Option<string>): (c: Option<string>)
    ensures c.None? <==> raw.None? || forall k :: 0 <= k < |raw.value| ==> IsSpace(raw.value[k])
    ensures c.Some? ==> c.value == Strip(raw.value) && c.value != [] && Trimmed(c.value)
  {
    match raw
    case None => None
    case Some(t) =>
      var s := Strip(t);
      if s == [] then None else Some(s)
  }

  // ---------------------------------------------------------------------------------------
  // Header labels

  /** The four labels the explicit renaming must find. */
  const RenamedLabels: seq<string> := ["TML %", "WVR", "CVCM", "Mfr."]

  /** The explicit renaming: exactly the four listed labels change, and none of them is
      renamed to a listed label. */
  function Rename(name: string): (r: string)
    ensures r == name <==> name !in RenamedLabels
    ensures name in RenamedLabels ==> r !in RenamedLabels
  {
    if name == "TML %" then "TML_Pct"
    else if name == "WVR" then "WVR_Pct"
    else if name == "CVCM" then "CVCM_Pct"
    else if name == "Mfr." then "Manufacturer"
    else name
  }

  /** `replace(" ", "_")`. */
  function Underscored(s: string): (r: string)
    ensures |r| == |s|
    ensures forall k :: 0 <= k < |s| ==> r[k] == if s[k] == ' ' then '_' else s[k]
  {
    if s == [] then [] else [if s[0] == ' ' then '_' else s[0]] + Underscored(s[1..])
  }

  /** A label after the renaming and `col.strip().replace(" ", "_")`; it has no space. */
  function HeaderLabel(name: string): (r: string)
    ensures ' ' !in r
  {
    var u := Underscored(PyStrip(Rename(name)));
    assert forall k :: 0 <= k < |u| ==> u[k] != ' ';
    u
  }

  function HeaderLabels(headers: seq<string>): seq<string> {
    seq(|headers|, k requires 0 <= k < |headers| => HeaderLabel(headers[k]))
  }

  /** The first required label that is not present. */
  function FirstAbsent(required: seq<string>, present: seq<string>): (r: Option<string>)
    ensures r.None? <==> forall k :: 0 <= k < |required| ==> required[k] in present
    ensures r.Some? ==> r.value in required && r.value !in present
  {
    if required == [] then None
    else if required[0] !in present then Some(required[0])
    else
      var r := FirstAbsent(required[1..], present);
      assert forall k :: 0 < k < |required| ==> required[k] == required[1..][k - 1];
      r
  }

  /** The first label that occurs again later, if any. */
  function FirstRepeated(s: seq<string>): (r: Option<string>)
    ensures r.None? <==> Distinct(s)
    ensures r.Some? ==> exists i, j :: 0 <= i < j < |s| && s[i] == r.value && s[j] == r.value
  {
    if s == [] then None
    else if s[0] in s[1..] then
      var j :| 0 <= j < |s[1..]| && s[1..][j] == s[0];
      assert s[j + 1] == s[0];
      Some(s[0])
    else
      var r := FirstRepeated(s[1..]);
      assert forall k :: 0 < k < |s| ==> s[k] == s[1..][k - 1];
      if r.Some? then
        var i, j :| 0 <= i < j < |s[1..]| && s[1..][i] == r.value && s[1..][j] == r.value;
        assert s[i + 1] == r.value && s[j + 1] == r.value;
        r
      else
        r
  }

  /** The labels of a page, or why polars would reject them: a missing rename source, two
      equal labels, or no `Year` column for the cast that follows. */
  function ShapeHeaders(headers: seq<string>): (r: Result<seq<string>, ShapeError>)
    ensures r.Success? <==>
              (forall k :: 0 <= k < |RenamedLabels| ==> RenamedLabels[k] in headers)
              && Distinct(HeaderLabels(headers)) && "Year" in HeaderLabels(headers)
    ensures r.Success? ==> r.value == HeaderLabels(headers)
    ensures r.Success? ==> forall k :: 0 <= k < |r.value| ==> ' ' !in r.value[k]
  {
    match FirstAbsent(RenamedLabels, headers)
    case Some(name) => Failure(MissingColumn(name))
    case None =>
      var labels := HeaderLabels(headers);
      match FirstRepeated(labels)
      case Some(name) => Failure(DuplicateColumn(name))
      case None => if "Year" !in labels then Failure(MissingColumn("Year")) else Success(labels)
  }

  lemma UnderscoredKeepsSpaceless(s: string)
    requires ' ' !in s
    ensures Underscored(s) == s
  {
  }

  /** A renamed label that needs no stripping and has no space is the final label. */
  lemma RenamedLabelIsFinal(name: string, target: string)
    requires Rename(name) == target && target != [] && ' ' !in target
    requires !IsPySpace(target[0]) && !IsPySpace(target[|target| - 1])
    ensures HeaderLabel(name) == target
  {
    StripKeepsClean(target, IsPySpace);
    UnderscoredKeepsSpaceless(target);
  }

  /** The four renamed labels come out as `TML_Pct`, `WVR_Pct`, `CVCM_Pct`, `Manufacturer`
      (one lemma each keeps every proof small). */
  lemma TmlBecomes()
    ensures HeaderLabel("TML %") == "TML_Pct"
  {
    RenamedLabelIsFinal("TML %", "TML_Pct");
  }

  lemma WvrBecomes()
    ensures HeaderLabel("WVR") == "WVR_Pct"
  {
    RenamedLabelIsFinal("WVR", "WVR_Pct");
  }

  lemma CvcmBecomes()
    ensures HeaderLabel("CVCM") == "CVCM_Pct"
  {
    RenamedLabelIsFinal("CVCM", "CVCM_Pct");
  }

  lemma MfrBecomes()
    ensures HeaderLabel("Mfr.") == "Manufacturer"
  {
    RenamedLabelIsFinal("Mfr.", "Manufacturer");
  }

  lemma LabelPresent(headers: seq<string>, name: string)
    requires name in headers
    ensures HeaderLabel(name) in HeaderLabels(headers)
  {
    var j :| 0 <= j < |headers| && headers[j] == name;
    assert HeaderLabels(headers)[j] == HeaderLabel(name);
  }

  /** A page whose labels are accepted has the four renamed columns and the `Year` column. */
  lemma ShapedHeadersHaveColumns(headers: seq<string>)
    requires ShapeHeaders(headers).Success?
    ensures "TML_Pct" in ShapeHeaders(headers).value && "WVR_Pct" in ShapeHeaders(headers).value
    ensures "CVCM_Pct" in ShapeHeaders(headers).value
    ensures "Manufacturer" in ShapeHeaders(headers).value && "Year" in ShapeHeaders(headers).value
  {
    assert RenamedLabels[0] in headers && RenamedLabels[1] in headers;
    assert RenamedLabels[2] in headers && RenamedLabels[3] in headers;
    TmlBecomes();
    WvrBecomes();
    CvcmBecomes();
    MfrBecomes();
    LabelPresent(headers, "TML %");
    LabelPresent(headers, "WVR");
    LabelPresent(headers, "CVCM");
    LabelPresent(headers, "Mfr.");
  }

  // ---------------------------------------------------------------------------------------
  // Values

  /** The columns cast to `Decimal`. */
  const DecimalColumns: seq<string> := ["TML_Pct", "WVR_Pct", "CVCM_Pct"]

  /** A cell after shaping: text, or an exact decimal. Null is `None` in either. */
  datatype Value = Text(text: Option<string>) | Decimal(amount: Option<real>)

  /** The strict cast of one cleaned cell to `Decimal`: null stays null, and text the
      parser rejects is an error. */
  function ToDecimal(column: string, cell: Option<string>, parse: string -> Option<real>)
    : (r: Result<Option<real>, ShapeError>)
    ensures r.Failure? <==> cell.Some? && parse(cell.value).None?
    ensures r.Success? ==> (r.value.None? <==> cell.None?)
    ensures r.Success? && cell.Some? ==> r.value == parse(cell.value)
  {
    match cell
    case None => Success(None)
    case Some(t) =>
      match parse(t)
      case None => Failure(NotDecimal(column, t))
      case Some(x) => Success(Some(x))
  }

  /** One raw cell of the named column, cleaned and, in a decimal column, cast. */
  function ShapeCell(column: string, raw: Option<string>, parse: string -> Option<real>)
    : (r: Result<Value, ShapeError>)
    ensures r.Failure? <==>
              column in DecimalColumns && CleanCell(raw).Some? && parse(CleanCell(raw).value).None?
    ensures r.Success? ==> (r.value.Decimal? <==> column in DecimalColumns)
  {
    if column in DecimalColumns then
      match ToDecimal(column, CleanCell(raw), parse)
      case Success(a) => Success(Decimal(a))
      case Failure(e) => Failure(e)
    else Success(Text(CleanCell(raw)))
  }

  /** A shaped text cell is null or a stripped, non-empty string. */
  lemma ShapedTextIsClean(column: string, raw: Option<string>, parse: string -> Option<real>)
    requires ShapeCell(column, raw, parse).Success?
    ensures match ShapeCell(column, raw, parse).value
            case Text(t) => column !in DecimalColumns && t == CleanCell(raw)
                            && (t.Some? ==> t.value != [] && Trimmed(t.value))
            case Decimal(a) => column in DecimalColumns && (a.None? <==> CleanCell(raw).None?)
  {
  }

  /** The cells of a row, column by column; the row fails when any cell does. */
  function ShapeCells(columns: seq<string>, raws: seq<Option<string>>,
                      parse: string -> Option<real>): (r: Result<seq<Value>, ShapeError>)
    requires |columns| == |raws|
    ensures r.Success? <==>
              forall k :: 0 <= k < |raws| ==> ShapeCell(columns[k], raws[k], parse).Success?
    ensures r.Success? ==> |r.value| == |raws| && forall k :: 0 <= k < |raws| ==>
              ShapeCell(columns[k], raws[k], parse) == Success(r.value[k])
    decreases |raws|
  {
    if raws == [] then Success([])
    else
      var rest := ShapeCells(columns[1..], raws[1..], parse);
      assert forall k :: 0 < k < |raws| ==> columns[k] == columns[1..][k - 1] && raws[k] == raws[1..][k - 1];
      match ShapeCell(columns[0], raws[0], parse)
      case Failure(e) => Failure(e)
      case Success(v) =>
        match rest
        case Failure(e) => Failure(e)
        case Success(vs) => Success([v] + vs)
  }

  /** `TML_Pct - WVR_Pct.fill_null(0)`: null exactly when TML is, and otherwise TML less
      WVR, or TML itself when WVR is null. */
  function Rml(tml: Option<real>, wvr: Option<real>): (r: Option<real>)
    ensures r.None? <==> tml.None?
    ensures wvr.None? ==> r == tml
    ensures r.Some? && wvr.Some? ==> r.value + wvr.value == tml.value
  {
    match tml
    case None => None
    case Some(t) => Some(t - (match wvr case None => 0.0 case Some(w) => w))
  }

  /** The decimal in the named column of a shaped row (null when there is none). */
  function AmountOf(columns: seq<string>, cells: seq<Value>, name: string): Option<real>
    requires |cells| == |columns|
  {
    if name in columns then
      match cells[FirstIndex(columns, name)]
      case Decimal(a) => a
      case Text(_) => None
    else None
  }

  /** `with_columns(RML_Pct=...)`: the old columns keep their positions, and the named one
      is appended last unless it is already there, in which case it is replaced in place. */
  function WithColumn(columns: seq<string>, name: string): (r: seq<string>)
    ensures |columns| <= |r| <= |columns| + 1 && r[..|columns|] == columns
    ensures name in r
    ensures |r| == |columns| <==> name in columns
  {
    if name in columns then columns else columns + [name]
  }

  function WithCell(columns: seq<string>, cells: seq<Value>, name: string, v: Value)
    : (r: seq<Value>)
    requires |cells| == |columns|
    ensures |r| == |WithColumn(columns, name)|
    ensures r[FirstIndex(WithColumn(columns, name), name)] == v
    ensures forall k :: 0 <= k < |columns| && columns[k] != name ==> r[k] == cells[k]
  {
    if name in columns then cells[FirstIndex(columns, name) := v]
    else
      assert FirstIndex(columns + [name], name) == |columns| by {
        FirstIndexUnique(columns + [name], name, |columns|);
      }
      cells + [v]
  }

  /** One row of a page: cleaned and cast cells, with `RML_Pct` in place. */
  function ShapeRow(columns: seq<string>, raws: seq<Option<string>>,
                    parse: string -> Option<real>): (r: Result<seq<Value>, ShapeError>)
    requires |columns| == |raws|
    ensures r.Success? <==> ShapeCells(columns, raws, parse).Success?
    ensures r.Success? ==> |r.value| == |WithColumn(columns, "RML_Pct")|
    ensures r.Success? ==> forall k :: 0 <= k < |columns| && columns[k] != "RML_Pct" ==>
              r.value[k] == ShapeCells(columns, raws, parse).value[k]
  {
    match ShapeCells(columns, raws, parse)
    case Failure(e) => Failure(e)
    case Success(cells) =>
      var rml := Rml(AmountOf(columns, cells, "TML_Pct"), AmountOf(columns, cells, "WVR_Pct"));
      Success(WithCell(columns, cells, "RML_Pct", Decimal(rml)))
  }

  /** The decimal a shaped row holds in a decimal column is the cast of that raw cell. */
  lemma AmountOfCast(columns: seq<string>, raws: seq<Option<string>>,
                     parse: string -> Option<real>, name: string)
    requires |columns| == |raws| && ShapeCells(columns, raws, parse).Success?
    requires name in DecimalColumns && name in columns
    ensures var cells := ShapeCells(columns, raws, parse).value;
            AmountOf(columns, cells, name)
            == ToDecimal(name, CleanCell(raws[FirstIndex(columns, name)]), parse).value
  {
    var k := FirstIndex(columns, name);
    var cells := ShapeCells(columns, raws, parse).value;
    assert ShapeCell(columns[k], raws[k], parse) == Success(cells[k]);
  }

  /** The derived cell is `TML_Pct - coalesce(WVR_Pct, 0)` of the row's own cells. */
  lemma RowRml(columns: seq<string>, raws: seq<Option<string>>, parse: string -> Option<real>)
    requires |columns| == |raws| && ShapeRow(columns, raws, parse).Success?
    requires "TML_Pct" in columns && "WVR_Pct" in columns && "RML_Pct" !in columns
    ensures var t, w := FirstIndex(columns, "TML_Pct"), FirstIndex(columns, "WVR_Pct");
            ShapeRow(columns, raws, parse).value[|columns|]
            == Decimal(Rml(ToDecimal("TML_Pct", CleanCell(raws[t]), parse).value,
                           ToDecimal("WVR_Pct", CleanCell(raws[w]), parse).value))
  {
    assert "TML_Pct" in DecimalColumns && "WVR_Pct" in DecimalColumns;
    AmountOfCast(columns, raws, parse, "TML_Pct");
    AmountOfCast(columns, raws, parse, "WVR_Pct");
    FirstIndexUnique(columns + ["RML_Pct"], "RML_Pct", |columns|);
  }

  // ---------------------------------------------------------------------------------------
  // Pages

  /** A table as the HTML reader returns it: header labels and rows of text cells. */
  datatype RawTable = RawTable(headers: seq<string>, rows: seq<seq<Option<string>>>)

  /** Every row has one cell per header. */
  predicate Rectangular(t: RawTable) {
    forall k :: 0 <= k < |t.rows| ==> |t.rows[k]| == |t.headers|
  }

  datatype Table = Table(columns: seq<string>, rows: seq<seq<Value>>)

  /** Every outcome's value in order, or the first error among them. */
  function AllOrFirstError<T(==), E(==)>(results: seq<Result<T, E>>): (r: Result<seq<T>, E>)
    ensures r.Success? <==> forall k :: 0 <= k < |results| ==> results[k].Success?
    ensures r.Success? ==> |r.value| == |results| && forall k :: 0 <= k < |results| ==>
              results[k] == Success(r.value[k])
    ensures r.Failure? ==> exists k :: 0 <= k < |results| && results[k] == Failure(r.error)
  {
    if results == [] then Success([])
    else
      var rest := AllOrFirstError(results[1..]);
      assert forall k :: 0 < k < |results| ==> results[k] == results[1..][k - 1];
      if results[0].Failure? then Failure(results[0].error)
      else if rest.Failure? then
        var k :| 0 <= k < |results[1..]| && results[1..][k] == Failure(rest.error);
        assert results[k + 1] == Failure(rest.error);
        Failure(rest.error)
      else Success([results[0].value] + rest.value)
  }

  /** The rows of a page, each shaped under the page's labels; the page fails on the first
      row that does. */
  function ShapeRows(columns: seq<string>, rows: seq<seq<Option<string>>>,
                     parse: string -> Option<real>): (r: Result<seq<seq<Value>>, ShapeError>)
    requires forall k :: 0 <= k < |rows| ==> |rows[k]| == |columns|
    ensures r.Success? <==> forall k :: 0 <= k < |rows| ==> ShapeRow(columns, rows[k], parse).Success?
    ensures r.Success? ==> |r.value| == |rows| && forall k :: 0 <= k < |rows| ==>
              ShapeRow(columns, rows[k], parse) == Success(r.value[k])
  {
    var results := seq(|rows|, k requires 0 <= k < |rows| => ShapeRow(columns, rows[k], parse));
    assert forall k :: 0 <= k < |rows| ==> results[k] == ShapeRow(columns, rows[k], parse);
    AllOrFirstError(results)
  }

  /** `do_scrape` after the HTML reader: the labels are shaped first, then every row. */
  function ShapePage(t: RawTable, parse: string -> Option<real>): (r: Result<Table, ShapeError>)
    requires Rectangular(t)
    ensures r.Success? <==>
              && ShapeHeaders(t.headers).Success?
              && forall k :: 0 <= k < |t.rows| ==>
                   ShapeRow(HeaderLabels(t.headers), t.rows[k], parse).Success?
    ensures r.Success? ==>
              && r.value.columns == WithColumn(HeaderLabels(t.headers), "RML_Pct")
              && |r.value.rows| == |t.rows|
              && forall k :: 0 <= k < |t.rows| ==>
                   ShapeRow(HeaderLabels(t.headers), t.rows[k], parse) == Success(r.value.rows[k])
  {
    var labels := HeaderLabels(t.headers);
    var header := ShapeHeaders(t.headers);
    if header.Failure? then Failure(header.error)
    else
      assert header.value == labels;
      assert forall k :: 0 <= k < |t.rows| ==> |t.rows[k]| == |labels|;
      var rows := ShapeRows(labels, t.rows, parse);
      if rows.Failure? then Failure(rows.error)
      else Success(Table(WithColumn(labels, "RML_Pct"), rows.value))
  }
}
