/**
 * From the page to the header grid and the data rows: the busy-server
 * check, the choice of the table with the most rows, the check that the
 * header names a "Vía" column, the first data row, and the spreading of each
 * data row over the header's columns.
 */
module Table {
  import opened Wrappers
  import opened Text
  import opened HeaderGrid

  /** The message the server answers with when it refuses the query. */
  const BusyMessage: string := "Disculpe usted, pero por el momento no podemos atenderlo"

  /** A table as the page holds it: its rows, each the list of its own cells. */
  type HtmlTable = seq<seq<RawCell>>

  datatype TableError =
    | ServerBusy                      // the page is the busy-server notice
    | NoTables                        // the page holds no table
    | HeaderFault(cause: HeaderError) // `build_header_grid` raised
    | MissingVia                      // the first header row names no "Vía" column
    | DataRowFault(cause: HeaderError) // a data cell's colspan is not an integer

  /** What `parse_table_with_multilevel_headers` returns. */
  datatype ParsedTable = ParsedTable(row0: seq<string>, row1: seq<string>, blocked: seq<bool>,
                                     dataRows: seq<seq<string>>)

  /** `max(tables, key=row count)`: the first of the tables with the most rows. */
  function LargestTable(tables: seq<HtmlTable>): (k: nat)
    requires tables != []
    ensures k < |tables|
    ensures forall j :: 0 <= j < |tables| ==> |tables[j]| <= |tables[k]|
    ensures forall j :: 0 <= j < k ==> |tables[j]| < |tables[k]|
  {
    var n := |tables|;
    if n == 1 then 0
    else
      var k := LargestTable(tables[..n - 1]);
      assert forall j :: 0 <= j < n - 1 ==> tables[..n - 1][j] == tables[j];
      if |tables[n - 1]| > |tables[k]| then n - 1 else k
  }

  // ---------------------------------------------------------------------------
  // The "Vía" check

  /** Python's `" ".join(parts)`. */
  function JoinSpace(parts: seq<string>): string {
    if parts == [] then ""
    else if |parts| == 1 then parts[0]
    else parts[0] + " " + JoinSpace(parts[1..])
  }

  function LowerAll(row: seq<string>): (r: seq<string>)
    ensures |r| == |row| && forall i :: 0 <= i < |row| ==> r[i] == Lower(row[i])
  {
    seq(|row|, i requires 0 <= i < |row| => Lower(row[i]))
  }

  /** The test on the first header row: `"vía"` anywhere, or `"via"` as a word of its own. */
  predicate HasViaHeader(row0: seq<string>) {
    var low := JoinSpace(LowerAll(row0));
    Contains(low, "v\U{ed}a") || Contains(" " + low + " ", " via ")
  }

  lemma {:induction false} ContainsInJoin(parts: seq<string>, i: nat, pat: string)
    requires i < |parts| && Contains(parts[i], pat)
    ensures Contains(JoinSpace(parts), pat)
  {
    if |parts| > 1 {
      if i == 0 {
        assert JoinSpace(parts) == parts[0] + (" " + JoinSpace(parts[1..]));
        ContainsLeft(parts[0], " " + JoinSpace(parts[1..]), pat);
      } else {
        ContainsInJoin(parts[1..], i - 1, pat);
        assert JoinSpace(parts) == (parts[0] + " ") + JoinSpace(parts[1..]);
        ContainsRight(parts[0] + " ", JoinSpace(parts[1..]), pat);
      }
    }
  }

  lemma {:induction false} WordInPaddedJoin(parts: seq<string>, i: nat)
    requires i < |parts|
    ensures Contains(" " + JoinSpace(parts) + " ", " " + parts[i] + " ")
  {
    var word := " " + parts[i] + " ";
    if |parts| == 1 {
      ContainsSelf(word);
    } else if i == 0 {
      assert " " + JoinSpace(parts) + " " == word + (JoinSpace(parts[1..]) + " ");
      ContainsSelf(word);
      ContainsLeft(word, JoinSpace(parts[1..]) + " ", word);
    } else {
      WordInPaddedJoin(parts[1..], i - 1);
      assert " " + JoinSpace(parts) + " " == (" " + parts[0]) + (" " + JoinSpace(parts[1..]) + " ");
      ContainsRight(" " + parts[0], " " + JoinSpace(parts[1..]) + " ", word);
    }
  }

  /** A header cell reading "Vía" (in any case, or inside a longer title), or one reading exactly "via", passes the check. */
  lemma ViaHeaderAccepted(row0: seq<string>, i: nat)
    requires i < |row0|
    requires Contains(Lower(row0[i]), "v\U{ed}a") || Lower(row0[i]) == "via"
    ensures HasViaHeader(row0)
  {
    var low := LowerAll(row0);
    if Contains(Lower(row0[i]), "v\U{ed}a") {
      ContainsInJoin(low, i, "v\U{ed}a");
    } else {
      WordInPaddedJoin(low, i);
      assert " " + low[i] + " " == " via ";
    }
  }

  // ---------------------------------------------------------------------------
  // Data rows

  /** `2 if any(row1) else 1`: the data starts after the second header row only if it holds a text. */
  function DataStart(row1: seq<string>): (k: nat)
    ensures k == 2 <==> exists i :: 0 <= i < |row1| && row1[i] != ""
    ensures k == 1 || k == 2
  {
    if exists i :: 0 <= i < |row1| && row1[i] != "" then 2 else 1
  }

  /** `trs[data_start_idx:]`. */
  function DataRowsOf(g: Grid): seq<seq<RawCell>> {
    var start := DataStart(g.row1);
    if start <= |g.rows| then g.rows[start..] else []
  }

  /** A data cell: only its colspan is read. */
  function IgnoreRowspan(tr: seq<RawCell>): (r: seq<RawCell>)
    ensures |r| == |tr|
  {
    seq(|tr|, i requires 0 <= i < |tr| => RawCell(tr[i].text, tr[i].colspan, None))
  }

  /** Python's `s[:n]`: a negative `n` counts from the end. */
  function PyPrefix<T>(s: seq<T>, n: int): (r: seq<T>)
    ensures n >= 0 ==> r == s[..if n < |s| then n else |s|]
    ensures n < 0 ==> r == s[..if |s| + n < 0 then 0 else |s| + n]
  {
    if n >= 0 then (if n < |s| then s[..n] else s)
    else if |s| + n < 0 then [] else s[..|s| + n]
  }

  /** Padding with empty cells, or cutting, to the header's column total. */
  function FitWidth(cells: seq<string>, total: int): seq<string> {
    if |cells| < total then cells + Repeat("", total - |cells|)
    else if |cells| > total then PyPrefix(cells, total)
    else cells
  }

  /** `expand_data_row`, stated declaratively. */
  function DataRowSpec(tr: seq<RawCell>, total: int): Result<seq<string>, HeaderError> {
    match DecodeRow(IgnoreRowspan(tr))
    case Failure(e) => Failure(e)
    case Success(cells) => Success(FitWidth(Expand(cells), total))
  }

  /**
   * With a non-negative column total a data row is exactly that wide: each
   * column holds the text of the cell that spans it, and columns past the
   * row's cells are empty.
   */
  lemma DataRowWidth(tr: seq<RawCell>, total: int)
    requires total >= 0 && DataRowSpec(tr, total).Success?
    ensures var row := DataRowSpec(tr, total).value;
      var spread := Expand(DecodeRow(IgnoreRowspan(tr)).value);
      |row| == total && forall c :: 0 <= c < total ==> row[c] == if c < |spread| then spread[c] else ""
  {
  }

  /** `expanded.extend([text] * colspan)`: as many copies of the cell's text as its colspan, none when that is not positive. */
  method AppendCopies(cells: seq<string>, cell: Cell) returns (r: seq<string>)
    ensures r == cells + Repeat(cell.text, Span(cell))
  {
    r := cells;
    var j := 0;
    while j < cell.colspan
      invariant 0 <= j <= Span(cell)
      invariant r == cells + Repeat(cell.text, j)
    {
      r := r + [cell.text];
      j := j + 1;
    }
  }

  /** The loop of `expand_data_row`: each cell read and repeated over its colspan; the first cell `int()` refuses is the error. */
  method SpreadCells(raw: seq<RawCell>) returns (r: Result<seq<string>, HeaderError>)
    ensures DecodeRow(raw).Failure? ==> r == Failure(DecodeRow(raw).error)
    ensures DecodeRow(raw).Success? ==> r == Success(Expand(DecodeRow(raw).value))
  {
    var cells: seq<string> := [];
    ghost var decoded: seq<Cell> := [];
    for i := 0 to |raw|
      invariant |decoded| == i
      invariant forall j :: 0 <= j < i ==> DecodeCell(raw[j]) == Success(decoded[j])
      invariant cells == Expand(decoded)
    {
      var d := DecodeCell(raw[i]);
      if d.Failure? {
        DecodeRowFirstFailure(raw, i);
        return Failure(d.error);
      }
      var cell := d.value;
      assert (decoded + [cell])[..i] == decoded;
      cells := AppendCopies(cells, cell);
      assert Expand(decoded + [cell]) == Expand(decoded) + Repeat(cell.text, Span(cell));
      decoded := decoded + [cell];
    }
    assert DecodeRow(raw).value == decoded;
    r := Success(cells);
  }

  /** `expand_data_row`: each cell repeated over its colspan, then padded or cut to `total`. */
  method ExpandDataRow(tr: seq<RawCell>, total: int) returns (r: Result<seq<string>, HeaderError>)
    ensures r == DataRowSpec(tr, total)
  {
    var spread := SpreadCells(IgnoreRowspan(tr));
    if spread.Failure? {
      return Failure(spread.error);
    }
    var cells := spread.value;
    assert DataRowSpec(tr, total) == Success(FitWidth(cells, total));
    if |cells| < total {
      cells := cells + Repeat("", total - |cells|);
    } else if |cells| > total {
      cells := PyPrefix(cells, total);
    }
    r := Success(cells);
  }

  /** All data rows, in order; the first row that fails stops the parse. */
  function DataRowsSpec(trs: seq<seq<RawCell>>, total: int): Result<seq<seq<string>>, HeaderError> {
    if trs == [] then Success([])
    else
      var n := |trs|;
      match DataRowsSpec(trs[..n - 1], total)
      case Failure(e) => Failure(e)
      case Success(rows) =>
        match DataRowSpec(trs[n - 1], total)
        case Failure(e) => Failure(e)
        case Success(row) => Success(rows + [row])
  }

  /** A successful parse gives one data row per table row, the last row expanded on its own. */
  lemma DataRowsLast(trs: seq<seq<RawCell>>, total: int)
    requires trs != [] && DataRowsSpec(trs, total).Success?
    ensures var n := |trs|;
      && DataRowsSpec(trs[..n - 1], total).Success? && DataRowSpec(trs[n - 1], total).Success?
      && DataRowsSpec(trs, total).value == DataRowsSpec(trs[..n - 1], total).value + [DataRowSpec(trs[n - 1], total).value]
  {
  }

  lemma {:induction false} DataRowsLength(trs: seq<seq<RawCell>>, total: int)
    requires DataRowsSpec(trs, total).Success?
    ensures |DataRowsSpec(trs, total).value| == |trs|
  {
    if trs != [] {
      DataRowsLast(trs, total);
      DataRowsLength(trs[..|trs| - 1], total);
    }
  }

  lemma {:induction false} DataRowsAt(trs: seq<seq<RawCell>>, total: int, k: nat)
    requires DataRowsSpec(trs, total).Success? && k < |trs|
    ensures k < |DataRowsSpec(trs, total).value|
    ensures DataRowSpec(trs[k], total) == Success(DataRowsSpec(trs, total).value[k])
  {
    var n := |trs|;
    DataRowsLast(trs, total);
    DataRowsLength(trs[..n - 1], total);
    if k < n - 1 {
      DataRowsAt(trs[..n - 1], total, k);
      assert trs[..n - 1][k] == trs[k];
    }
  }

  /** Parsed data rows are the table rows after the header, each expanded on its own. */
  lemma DataRowsOneByOne(trs: seq<seq<RawCell>>, total: int)
    requires DataRowsSpec(trs, total).Success?
    ensures var rows := DataRowsSpec(trs, total).value;
      |rows| == |trs| && forall k :: 0 <= k < |trs| ==> DataRowSpec(trs[k], total) == Success(rows[k])
  {
    DataRowsLength(trs, total);
    forall k | 0 <= k < |trs| ensures DataRowSpec(trs[k], total) == Success(DataRowsSpec(trs, total).value[k]) {
      DataRowsAt(trs, total, k);
    }
  }

  lemma DataRowsSnoc(trs: seq<seq<RawCell>>, i: nat, total: int)
    requires i < |trs|
    ensures DataRowsSpec(trs[..i + 1], total)
         == match DataRowsSpec(trs[..i], total)
            case Failure(e) => Failure(e)
            case Success(rows) =>
              match DataRowSpec(trs[i], total)
              case Failure(e) => Failure(e)
              case Success(row) => Success(rows + [row])
  {
    assert trs[..i + 1][..i] == trs[..i];
    assert trs[..i + 1][i] == trs[i];
  }

  lemma {:induction false} DataRowsFailurePersists(trs: seq<seq<RawCell>>, i: nat, total: int)
    requires i <= |trs| && DataRowsSpec(trs[..i], total).Failure?
    ensures DataRowsSpec(trs, total) == DataRowsSpec(trs[..i], total)
    decreases |trs| - i
  {
    if i < |trs| {
      var n := |trs|;
      assert trs[..n - 1][..i] == trs[..i];
      DataRowsFailurePersists(trs[..n - 1], i, total);
    } else {
      assert trs[..i] == trs;
    }
  }

  // ---------------------------------------------------------------------------
  // The whole parse

  /** `parse_table_with_multilevel_headers` once the page has been split into tables, stated declaratively. */
  function TableSpec(page: string, tables: seq<HtmlTable>): Result<ParsedTable, TableError> {
    if Contains(page, BusyMessage) then Failure(ServerBusy)
    else if tables == [] then Failure(NoTables)
    else
      match HeaderSpec(tables[LargestTable(tables)])
      case Failure(e) => Failure(HeaderFault(e))
      case Success(g) => RowsSpec(g)
  }

  /** The part of the parse after the header grid: the "Vía" check and the data rows. */
  function RowsSpec(g: Grid): Result<ParsedTable, TableError> {
    if !HasViaHeader(g.row0) then Failure(MissingVia)
    else
      match DataRowsSpec(DataRowsOf(g), g.totalCols)
      case Failure(e) => Failure(DataRowFault(e))
      case Success(rows) => Success(ParsedTable(g.row0, g.row1, g.blocked, rows))
  }

  /**
   * A parsed table has a header with a "Vía" column, both header rows and
   * the blocked flags equally wide, one data row per table row after the
   * header, and every data row exactly as wide as the header (the header is
   * empty only when the column total is negative).
   */
  lemma ParsedTableShape(page: string, tables: seq<HtmlTable>)
    requires TableSpec(page, tables).Success?
    ensures var t := TableSpec(page, tables).value;
      && !Contains(page, BusyMessage) && tables != []
      && HasViaHeader(t.row0)
      && |t.row0| == |t.row1| == |t.blocked|
      && |t.dataRows| == |DataRowsOf(HeaderSpec(tables[LargestTable(tables)]).value)|
      && (t.row0 == [] || forall k :: 0 <= k < |t.dataRows| ==> |t.dataRows[k]| == |t.row0|)
  {
    var table := tables[LargestTable(tables)];
    GridShape(table);
    var g := HeaderSpec(table).value;
    var trs := DataRowsOf(g);
    var t := TableSpec(page, tables).value;
    DataRowsOneByOne(trs, g.totalCols);
    if g.totalCols >= 0 {
      forall k | 0 <= k < |t.dataRows| ensures |t.dataRows[k]| == |t.row0| {
        DataRowWidth(trs[k], g.totalCols);
      }
    }
  }

  /** `parse_table_with_multilevel_headers`, after the page has been split into tables; it computes exactly `TableSpec`. */
  method ParseTableWithMultilevelHeaders(page: string, tables: seq<HtmlTable>) returns (r: Result<ParsedTable, TableError>)
    ensures r == TableSpec(page, tables)
  {
    if Contains(page, BusyMessage) {
      return Failure(ServerBusy);
    }
    if tables == [] {
      return Failure(NoTables);
    }
    var table := tables[LargestTable(tables)];
    var built := BuildHeaderGrid(table);
    if built.Failure? {
      return Failure(HeaderFault(built.error));
    }
    r := ParseDataRows(built.value);
  }

  /** The "Vía" check and the data rows of a built grid; it computes exactly `RowsSpec`. */
  method ParseDataRows(g: Grid) returns (r: Result<ParsedTable, TableError>)
    ensures r == RowsSpec(g)
  {
    if !HasViaHeader(g.row0) {
      return Failure(MissingVia);
    }
    var trs := DataRowsOf(g);
    var rows: seq<seq<string>> := [];
    for i := 0 to |trs|
      invariant DataRowsSpec(trs[..i], g.totalCols) == Success(rows)
    {
      var row := ExpandDataRow(trs[i], g.totalCols);
      DataRowsSnoc(trs, i, g.totalCols);
      if row.Failure? {
        DataRowsFailurePersists(trs, i + 1, g.totalCols);
        return Failure(DataRowFault(row.error));
      }
      rows := rows + [row.value];
    }
    assert trs[..|trs|] == trs;
    r := Success(ParsedTable(g.row0, g.row1, g.blocked, rows));
  }
}
