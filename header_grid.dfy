/**
 * The two-level header of the tariff table. The first header row is spread
 * over as many columns as its `colspan`s add up to; a first-row cell with
 * `rowspan >= 2` blocks its columns in the second header row; the second
 * header row is then poured, left to right, into the columns that are still
 * free.
 */
module HeaderGrid {
  import opened Wrappers
  import opened Text

  /** A `<th>`/`<td>` as the page gives it: its stripped text and the raw span attribute values. */
  datatype RawCell = RawCell(text: string, colspan: Option<string>, rowspan: Option<string>)

  /** A cell whose span attributes have been read as integers (they may be zero or negative). */
  datatype Cell = Cell(text: string, colspan: int, rowspan: int)

  datatype HeaderError =
    | NoRows                          // the table has no row holding a cell
    | BadSpanAttribute(value: string) // `int()` refused a colspan or rowspan value
    | SpanOverflow                    // a write past the end of the header lists (IndexError)

  /** What `build_header_grid` returns: both header rows, the blocked flags, the column total and the rows. */
  datatype Grid = Grid(row0: seq<string>, row1: seq<string>, blocked: seq<bool>,
                       totalCols: int, rows: seq<seq<RawCell>>)

  // ---------------------------------------------------------------------------
  // Reading span attributes

  /** Python's `int(s)` on a string: surrounding whitespace, an optional sign, ASCII digits. */
  function PyInt(s: string): Option<int> {
    var t := Strip(s);
    if t == [] then None
    else if t[0] == '+' || t[0] == '-' then
      var d := t[1..];
      if d != [] && AllDigits(d) then Some(if t[0] == '-' then 0 - DigitsValue(d) else DigitsValue(d))
      else None
    else if AllDigits(t) then Some(DigitsValue(t))
    else None
  }

  /** `int()` accepts only an optional sign followed by at least one digit, once whitespace is stripped, and reads plain digits as their value. */
  lemma PyIntAcceptsOnlyDigits(s: string)
    ensures PyInt(s).Some? ==>
      var t := Strip(s);
      t != [] && (AllDigits(t) || ((t[0] == '+' || t[0] == '-') && |t| > 1 && AllDigits(t[1..])))
    ensures PyInt(s).Some? && AllDigits(Strip(s)) ==> PyInt(s).value == DigitsValue(Strip(s))
  {
  }

  /** `int()` of a run of digits is its value. */
  lemma PyIntDigits(d: string)
    requires d != [] && AllDigits(d)
    ensures PyInt(d) == Some(DigitsValue(d))
  {
    assert Strip(d) == d;
    assert d[0] != '+' && d[0] != '-';
  }

  /** A minus sign followed by digits holds no whitespace, so stripping keeps it. */
  lemma StripMinusDigits(d: string)
    requires AllDigits(d)
    ensures Strip("-" + d) == "-" + d
  {
    var s := "-" + d;
    forall i | 0 <= i < |s| ensures !IsSpace(s[i]) {
      if i > 0 { assert s[i] == d[i - 1]; }
    }
  }

  lemma DropMinus(d: string)
    ensures ("-" + d)[1..] == d
  {
  }

  /** `int()` of a minus sign followed by a run of digits is the negated value. */
  lemma PyIntMinusDigits(d: string)
    requires d != [] && AllDigits(d)
    ensures PyInt("-" + d) == Some(0 - DigitsValue(d))
  {
    StripMinusDigits(d);
    DropMinus(d);
  }

  lemma PyIntNegative(n: int)
    requires n < 0
    ensures PyInt(IntToString(n)) == Some(n)
  {
    var m: nat := -n;
    var d := NatToString(m);
    assert IntToString(n) == "-" + d;
    NatToStringValue(m);
    PyIntMinusDigits(d);
  }

  lemma PyIntNonNegative(n: int)
    requires n >= 0
    ensures PyInt(IntToString(n)) == Some(n)
  {
    NatToStringValue(n);
    PyIntDigits(NatToString(n));
  }

  /** `int(str(n)) == n` for every integer `n`. */
  lemma PyIntIntToString(n: int)
    ensures PyInt(IntToString(n)) == Some(n)
  {
    if n < 0 {
      PyIntNegative(n);
    } else {
      PyIntNonNegative(n);
    }
  }

  /** `int(cell.get(attr, 1) or 1)`: an absent or empty attribute reads as 1. */
  function SpanAttr(a: Option<string>): (r: Option<int>)
    ensures a.None? || a == Some("") ==> r == Some(1)
    ensures a.Some? && a.value != "" ==> r == PyInt(a.value)
  {
    match a
    case None => Some(1)
    case Some(v) => if v == "" then Some(1) else PyInt(v)
  }

  /** Reads both span attributes of a header cell, colspan first. */
  function DecodeCell(c: RawCell): (r: Result<Cell, HeaderError>)
    ensures r.Success? <==> SpanAttr(c.colspan).Some? && SpanAttr(c.rowspan).Some?
    ensures r.Success? ==>
      r.value.text == c.text && r.value.colspan == SpanAttr(c.colspan).value && r.value.rowspan == SpanAttr(c.rowspan).value
    ensures r.Failure? && SpanAttr(c.colspan).None? ==> r.error == BadSpanAttribute(c.colspan.value)
  {
    match SpanAttr(c.colspan)
    case None => Failure(BadSpanAttribute(c.colspan.value))
    case Some(cs) =>
      match SpanAttr(c.rowspan)
      case None => Failure(BadSpanAttribute(c.rowspan.value))
      case Some(rs) => Success(Cell(c.text, cs, rs))
  }

  /** Reads the cells of one row in order; the first cell whose attributes `int()` refuses is the error. */
  function DecodeRow(tr: seq<RawCell>): (r: Result<seq<Cell>, HeaderError>)
    ensures r.Success? <==> forall i :: 0 <= i < |tr| ==> DecodeCell(tr[i]).Success?
    ensures r.Success? ==> |r.value| == |tr| && forall i :: 0 <= i < |tr| ==> DecodeCell(tr[i]) == Success(r.value[i])
    ensures r.Failure? ==>
      exists i :: 0 <= i < |tr| && DecodeCell(tr[i]) == Failure(r.error) && forall j :: 0 <= j < i ==> DecodeCell(tr[j]).Success?
  {
    if tr == [] then Success([])
    else
      match DecodeCell(tr[0])
      case Failure(e) => Failure(e)
      case Success(c) =>
        match DecodeRow(tr[1..])
        case Failure(e) =>
          assert forall i :: 1 <= i < |tr| ==> tr[1..][i - 1] == tr[i];
          Failure(e)
        case Success(rest) =>
          assert forall i :: 1 <= i < |tr| ==> tr[1..][i - 1] == tr[i];
          Success([c] + rest)
  }

  /** The row's error is that of its first cell that fails. */
  lemma {:induction false} DecodeRowFirstFailure(tr: seq<RawCell>, i: nat)
    requires i < |tr| && DecodeCell(tr[i]).Failure?
    requires forall j :: 0 <= j < i ==> DecodeCell(tr[j]).Success?
    ensures DecodeRow(tr) == Failure(DecodeCell(tr[i]).error)
  {
    if i > 0 {
      assert forall j :: 0 <= j < i - 1 ==> tr[1..][j] == tr[j + 1];
      DecodeRowFirstFailure(tr[1..], i - 1);
    }
  }

  /** `_expand_row_cells_for_header`: the decoded cells and the sum of their colspans. */
  method ExpandRowCellsForHeader(tr: seq<RawCell>) returns (r: Result<seq<Cell>, HeaderError>, total: int)
    ensures r == DecodeRow(tr)
    ensures r.Success? ==> total == TotalCols(r.value)
  {
    var cells: seq<Cell> := [];
    total := 0;
    for i := 0 to |tr|
      invariant |cells| == i
      invariant forall j :: 0 <= j < i ==> DecodeCell(tr[j]) == Success(cells[j])
      invariant total == TotalCols(cells)
    {
      var c := DecodeCell(tr[i]);
      if c.Failure? {
        DecodeRowFirstFailure(tr, i);
        r := Failure(c.error);
        return;
      }
      assert (cells + [c.value])[..i] == cells;
      cells := cells + [c.value];
      total := total + c.value.colspan;
    }
    assert DecodeRow(tr).value == cells;
    r := Success(cells);
  }

  // ---------------------------------------------------------------------------
  // Spreading a row over columns

  /** Sum of the colspans, as `total_cols += cspan` computes it. */
  function TotalCols(cells: seq<Cell>): int {
    if cells == [] then 0 else TotalCols(cells[..|cells| - 1]) + cells[|cells| - 1].colspan
  }

  /** The number of columns `for _ in range(csp)` fills: a negative colspan fills none. */
  function Span(c: Cell): nat {
    if c.colspan < 0 then 0 else c.colspan
  }

  /** The length of the lists `[""] * total_cols` (a negative count gives an empty list). */
  function Width(total: int): nat {
    if total < 0 then 0 else total
  }

  function Repeat<T>(x: T, n: nat): (r: seq<T>)
    ensures |r| == n && forall i :: 0 <= i < n ==> r[i] == x
  {
    seq(n, _ => x)
  }

  /** Each cell's text once per column it spans. */
  function Expand(cells: seq<Cell>): seq<string> {
    if cells == [] then []
    else
      var last := cells[|cells| - 1];
      Expand(cells[..|cells| - 1]) + Repeat(last.text, Span(last))
  }

  /** Per spanned column, whether the cell reaches down into the second header row. */
  function Blocking(cells: seq<Cell>): seq<bool> {
    if cells == [] then []
    else
      var last := cells[|cells| - 1];
      Blocking(cells[..|cells| - 1]) + Repeat(last.rowspan >= 2, Span(last))
  }

  /** The columns a row fills never fall short of the column total, and match it exactly when no colspan is negative. */
  lemma {:induction false} ExpandLength(cells: seq<Cell>)
    ensures |Blocking(cells)| == |Expand(cells)|
    ensures |Expand(cells)| >= TotalCols(cells)
    ensures |Expand(cells)| == TotalCols(cells) <==> forall i :: 0 <= i < |cells| ==> cells[i].colspan >= 0
    ensures |Expand(cells)| > 0 <==> exists i :: 0 <= i < |cells| && cells[i].colspan > 0
  {
    if cells != [] {
      var p := cells[..|cells| - 1];
      ExpandLength(p);
      assert forall i :: 0 <= i < |p| ==> p[i] == cells[i];
    }
  }

  /** Spreading a prefix of the row gives a prefix of the spread row. */
  lemma {:induction false} ExpandPrefix(cells: seq<Cell>, k: nat)
    requires k <= |cells|
    ensures Expand(cells[..k]) <= Expand(cells)
    ensures Blocking(cells[..k]) <= Blocking(cells)
    decreases |cells| - k
  {
    if k < |cells| {
      var n := |cells|;
      assert cells[..n][..n - 1] == cells[..n - 1];
      ExpandPrefix(cells[..n - 1], k);
      assert cells[..n - 1][..k] == cells[..k];
    } else {
      assert cells[..k] == cells;
    }
  }

  /** The cell at position k fills the columns just after those of the cells before it. */
  lemma ExpandAt(cells: seq<Cell>, k: nat, j: nat)
    requires k < |cells| && j < Span(cells[k])
    ensures |Expand(cells[..k])| + j < |Expand(cells)| == |Blocking(cells)|
    ensures Expand(cells)[|Expand(cells[..k])| + j] == cells[k].text
    ensures Blocking(cells)[|Expand(cells[..k])| + j] == (cells[k].rowspan >= 2)
  {
    ExpandPrefix(cells, k + 1);
    assert cells[..k + 1][..k] == cells[..k];
    ExpandLength(cells[..k + 1]);
    ExpandLength(cells);
  }

  /** The first header row overruns its lists exactly when it holds a negative colspan and spans at least one column. */
  lemma OverflowIffNegativeSpan(cells: seq<Cell>)
    ensures |Expand(cells)| > Width(TotalCols(cells)) <==>
      (exists i :: 0 <= i < |cells| && cells[i].colspan < 0) && (exists i :: 0 <= i < |cells| && cells[i].colspan > 0)
  {
    ExpandLength(cells);
  }

  // ---------------------------------------------------------------------------
  // The second header row

  /** Number of columns not blocked. */
  function CountFree(blocked: seq<bool>): nat {
    if blocked == [] then 0
    else CountFree(blocked[..|blocked| - 1]) + (if blocked[|blocked| - 1] then 0 else 1)
  }

  lemma {:induction false} CountFreeMonotone(blocked: seq<bool>, i: nat, j: nat)
    requires i <= j <= |blocked|
    ensures CountFree(blocked[..i]) <= CountFree(blocked[..j])
    ensures (forall k :: i <= k < j ==> blocked[k]) ==> CountFree(blocked[..i]) == CountFree(blocked[..j])
    decreases j - i
  {
    if i < j {
      CountFreeMonotone(blocked, i, j - 1);
      assert blocked[..j][..j - 1] == blocked[..j - 1];
    }
  }

  /** The second-row text of column c: a free column of rank r takes the r-th spread text, if there is one. */
  function Row1At(blocked: seq<bool>, texts: seq<string>, c: nat): string
    requires c < |blocked|
  {
    if blocked[c] then ""
    else
      var rank := CountFree(blocked[..c]);
      if rank < |texts| then texts[rank] else ""
  }

  function Row1(blocked: seq<bool>, texts: seq<string>): (r: seq<string>)
    ensures |r| == |blocked|
  {
    seq(|blocked|, c requires 0 <= c < |blocked| => Row1At(blocked, texts, c))
  }

  /** The texts standing in the free columns, left to right. */
  function FreeTexts(row: seq<string>, blocked: seq<bool>): seq<string>
    requires |row| == |blocked|
  {
    if row == [] then []
    else
      FreeTexts(row[..|row| - 1], blocked[..|blocked| - 1])
        + (if blocked[|blocked| - 1] then [] else [row[|row| - 1]])
  }

  /** `texts` cut or padded with empty strings to exactly n entries. */
  function Fit(texts: seq<string>, n: nat): (r: seq<string>)
    ensures |r| == n
  {
    if |texts| >= n then texts[..n] else texts + Repeat("", n - |texts|)
  }

  /**
   * The second header row as the fill loop leaves it: blocked columns stay
   * empty, and the free columns read the spread texts in order, cut off at
   * the number of free columns or padded with empty strings.
   */
  lemma {:induction false} Row1FillsFreeColumnsInOrder(blocked: seq<bool>, texts: seq<string>)
    ensures forall c :: 0 <= c < |blocked| && blocked[c] ==> Row1(blocked, texts)[c] == ""
    ensures FreeTexts(Row1(blocked, texts), blocked) == Fit(texts, CountFree(blocked))
  {
    if blocked != [] {
      var n := |blocked|;
      var p := blocked[..n - 1];
      var row := Row1(blocked, texts);
      Row1Prefix(blocked, texts);
      Row1FillsFreeColumnsInOrder(p, texts);
      assert FreeTexts(row, blocked) == FreeTexts(Row1(p, texts), p) + (if blocked[n - 1] then [] else [row[n - 1]]);
      if !blocked[n - 1] {
        FitStep(texts, CountFree(p));
      }
    }
  }

  /** Cutting the last column off the second row gives the second row of the shorter grid. */
  lemma Row1Prefix(blocked: seq<bool>, texts: seq<string>)
    requires blocked != []
    ensures Row1(blocked, texts)[..|blocked| - 1] == Row1(blocked[..|blocked| - 1], texts)
  {
    var p := blocked[..|blocked| - 1];
    forall c | 0 <= c < |p| ensures Row1(blocked, texts)[c] == Row1(p, texts)[c] {
      assert p[..c] == blocked[..c];
    }
  }

  lemma FitStep(texts: seq<string>, r: nat)
    ensures Fit(texts, r) + [if r < |texts| then texts[r] else ""] == Fit(texts, r + 1)
  {
  }

  // ---------------------------------------------------------------------------
  // The whole header

  /** The rows that hold at least one cell, in order. */
  function NonEmptyRows(table: seq<seq<RawCell>>): (r: seq<seq<RawCell>>)
    ensures |r| <= |table|
    ensures forall i :: 0 <= i < |r| ==> r[i] != [] && r[i] in table
    ensures forall row :: row in table && row != [] ==> row in r
  {
    if table == [] then []
    else
      var rest := NonEmptyRows(table[1..]);
      if table[0] == [] then rest else [table[0]] + rest
  }

  /** One row is kept exactly when it holds a cell. */
  lemma NonEmptyRowsSingle(row: seq<RawCell>)
    ensures NonEmptyRows([row]) == if row == [] then [] else [row]
  {
    assert [row][1..] == [];
  }

  /** Filtering distributes over concatenation, so the kept rows stay in table order. */
  lemma {:induction false} NonEmptyRowsAppend(a: seq<seq<RawCell>>, b: seq<seq<RawCell>>)
    ensures NonEmptyRows(a + b) == NonEmptyRows(a) + NonEmptyRows(b)
  {
    if a == [] {
      assert a + b == b;
    } else {
      assert (a + b)[0] == a[0];
      assert (a + b)[1..] == a[1..] + b;
      NonEmptyRowsAppend(a[1..], b);
    }
  }

  /** `build_header_grid`, stated declaratively. */
  function HeaderSpec(table: seq<seq<RawCell>>): Result<Grid, HeaderError> {
    var trs := NonEmptyRows(table);
    if |trs| < 1 then Failure(NoRows)
    else
      match DecodeRow(trs[0])
      case Failure(e) => Failure(e)
      case Success(h1) => GridSpec(h1, trs)
  }

  /** The grid once the first table row has been read as `h1`. */
  function GridSpec(h1: seq<Cell>, trs: seq<seq<RawCell>>): Result<Grid, HeaderError> {
    var total := TotalCols(h1);
    var row0 := Expand(h1);
    if |row0| > Width(total) then Failure(SpanOverflow)
    else
      var blocked := Blocking(h1);
      if |trs| < 2 then Success(Grid(row0, Repeat("", |row0|), blocked, total, trs))
      else
        match DecodeRow(trs[1])
        case Failure(e) => Failure(e)
        case Success(h2) => Success(Grid(row0, Row1(blocked, Expand(h2)), blocked, total, trs))
  }

  /**
   * A grid that was built has both header rows and the blocked flags as wide
   * as the column total (or empty if the total is negative), the first row
   * spread from the first table row, and the second row empty under blocked
   * columns. When no colspan of the first row is negative the width is the
   * sum of its colspans.
   */
  lemma GridShape(table: seq<seq<RawCell>>)
    requires HeaderSpec(table).Success?
    ensures var g := HeaderSpec(table).value;
      && |g.row0| == |g.row1| == |g.blocked| == Width(g.totalCols)
      && g.rows == NonEmptyRows(table) && |g.rows| >= 1
      && g.row0 == Expand(DecodeRow(g.rows[0]).value)
      && g.blocked == Blocking(DecodeRow(g.rows[0]).value)
      && (forall c :: 0 <= c < |g.blocked| && g.blocked[c] ==> g.row1[c] == "")
      && ((forall i :: 0 <= i < |g.rows[0]| ==> DecodeRow(g.rows[0]).value[i].colspan >= 0)
          ==> |g.row0| == g.totalCols)
  {
    var g := HeaderSpec(table).value;
    var h1 := DecodeRow(NonEmptyRows(table)[0]).value;
    ExpandLength(h1);
    if |g.rows| >= 2 {
      Row1FillsFreeColumnsInOrder(g.blocked, Expand(DecodeRow(g.rows[1]).value));
    }
  }

  /** The free-column scan: the first column at or after c that is neither blocked nor already written. */
  method NextFree(row1: array<string>, blocked: array<bool>, c: int) returns (r: int)
    requires row1.Length == blocked.Length && 0 <= c <= row1.Length
    ensures c <= r <= row1.Length
    ensures forall k :: c <= k < r ==> blocked[k] || row1[k] != ""
    ensures r < row1.Length ==> !blocked[r] && row1[r] == ""
  {
    r := c;
    while r < row1.Length && (blocked[r] || row1[r] != "")
      invariant c <= r <= row1.Length
      invariant forall k :: c <= k < r ==> blocked[k] || row1[k] != ""
    {
      r := r + 1;
    }
  }

  /** The first fill loop: spreads the first header row over `row0` and marks the blocked columns. */
  method FillFirstRow(h1: seq<Cell>, row0: array<string>, blocked: array<bool>) returns (ok: bool)
    requires row0.Length == blocked.Length == Width(TotalCols(h1))
    requires forall c :: 0 <= c < blocked.Length ==> !blocked[c]
    modifies row0, blocked
    ensures ok <==> |Expand(h1)| <= Width(TotalCols(h1))
    ensures ok ==> row0[..] == Expand(h1) && blocked[..] == Blocking(h1)
  {
    var w := row0.Length;
    var col := 0;
    for k := 0 to |h1|
      invariant col == |Expand(h1[..k])| && col <= w
      invariant row0[..col] == Expand(h1[..k]) && blocked[..col] == Blocking(h1[..k])
      invariant forall c :: col <= c < w ==> !blocked[c]
    {
      var cell := h1[k];
      ghost var start := col;
      assert h1[..k + 1][..k] == h1[..k];
      var j := 0;
      while j < cell.colspan
        invariant 0 <= j <= Span(cell) && col == start + j && col <= w
        invariant row0[..col] == Expand(h1[..k]) + Repeat(cell.text, j)
        invariant blocked[..col] == Blocking(h1[..k]) + Repeat(cell.rowspan >= 2, j)
        invariant forall c :: col <= c < w ==> !blocked[c]
      {
        if col >= w {
          ExpandAt(h1, k, j);
          return false;
        }
        row0[col] := cell.text;
        if cell.rowspan >= 2 {
          blocked[col] := true;
        }
        col := col + 1;
        j := j + 1;
      }
    }
    assert h1[..|h1|] == h1;
    ExpandLength(h1);
    ok := true;
  }

  /**
   * The inner loop of the second-row fill: writes the text of cell k of the
   * second row into the next Span free columns from col0, skipping blocked
   * and already written ones, or until the row ends.
   */
  method FillCell(h2: seq<Cell>, k: nat, row1: array<string>, blocked: array<bool>, col0: int) returns (col: int)
    requires k < |h2| && row1.Length == blocked.Length && 0 <= col0 <= row1.Length
    requires col0 < row1.Length ==> CountFree(blocked[..col0]) == |Expand(h2[..k])|
    requires forall c :: 0 <= c < col0 ==> row1[c] == Row1At(blocked[..], Expand(h2), c)
    requires forall c :: col0 <= c < row1.Length ==> row1[c] == ""
    modifies row1
    ensures col0 <= col <= row1.Length
    ensures col < row1.Length ==> CountFree(blocked[..col]) == |Expand(h2[..k])| + Span(h2[k])
    ensures forall c :: 0 <= c < col ==> row1[c] == Row1At(blocked[..], Expand(h2), c)
    ensures forall c :: col <= c < row1.Length ==> row1[c] == ""
  {
    var w := row1.Length;
    ghost var texts := Expand(h2);
    ghost var b := blocked[..];
    var cell := h2[k];
    var filled := 0;
    col := col0;
    while col < w && filled < cell.colspan
      invariant col0 <= col <= w && 0 <= filled <= Span(cell)
      invariant col < w ==> CountFree(b[..col]) == |Expand(h2[..k])| + filled
      invariant forall c :: 0 <= c < col ==> row1[c] == Row1At(b, texts, c)
      invariant forall c :: col <= c < w ==> row1[c] == ""
    {
      assert b[..col + 1][..col] == b[..col];
      if !blocked[col] && row1[col] == "" {
        ExpandAt(h2, k, filled);
        assert Row1At(b, texts, col) == cell.text;
        row1[col] := cell.text;
        filled := filled + 1;
      } else {
        assert Row1At(b, texts, col) == "";
      }
      col := col + 1;
    }
  }

  /** The second fill loop: pours the second header row into the columns neither blocked nor written. */
  method FillSecondRow(h2: seq<Cell>, row1: array<string>, blocked: array<bool>)
    requires row1.Length == blocked.Length
    requires forall c :: 0 <= c < row1.Length ==> row1[c] == ""
    modifies row1
    ensures row1[..] == Row1(blocked[..], Expand(h2))
  {
    var w := row1.Length;
    ghost var texts := Expand(h2);
    ghost var b := blocked[..];
    var col := NextFree(row1, blocked, 0);
    CountFreeMonotone(b, 0, col);
    for k := 0 to |h2|
      invariant 0 <= col <= w
      invariant col < w ==> CountFree(b[..col]) == |Expand(h2[..k])|
      invariant forall c :: 0 <= c < col ==> row1[c] == Row1At(b, texts, c)
      invariant forall c :: col <= c < w ==> row1[c] == ""
    {
      assert h2[..k + 1][..k] == h2[..k];
      col := FillCell(h2, k, row1, blocked, col);
      ghost var before := col;
      col := NextFree(row1, blocked, col);
      CountFreeMonotone(b, before, col);
    }
    assert h2[..|h2|] == h2;
    forall c | col <= c < w ensures row1[c] == Row1At(b, texts, c) {
      CountFreeMonotone(b, col, c);
    }
  }

  /** `build_header_grid`, on arrays as the source fills its lists; it computes exactly `HeaderSpec`. */
  method BuildHeaderGrid(table: seq<seq<RawCell>>) returns (r: Result<Grid, HeaderError>)
    ensures r == HeaderSpec(table)
  {
    var trs := NonEmptyRows(table);
    if |trs| < 1 {
      return Failure(NoRows);
    }
    var first, total := ExpandRowCellsForHeader(trs[0]);
    if first.Failure? {
      return Failure(first.error);
    }
    r := BuildFromFirstRow(first.value, total, trs);
  }

  /** The rest of `build_header_grid` once the first table row has been read. */
  method BuildFromFirstRow(h1: seq<Cell>, total: int, trs: seq<seq<RawCell>>) returns (r: Result<Grid, HeaderError>)
    requires total == TotalCols(h1)
    ensures r == GridSpec(h1, trs)
  {
    var w := Width(total);
    var row0 := new string[w](_ => "");
    var row1 := new string[w](_ => "");
    var blocked := new bool[w](_ => false);
    var ok := FillFirstRow(h1, row0, blocked);
    if !ok {
      return Failure(SpanOverflow);
    }
    assert row0[..] == Expand(h1) && blocked[..] == Blocking(h1);
    if |trs| >= 2 {
      var second, _ := ExpandRowCellsForHeader(trs[1]);
      if second.Failure? {
        return Failure(second.error);
      }
      FillSecondRow(second.value, row1, blocked);
      assert row1[..] == Row1(Blocking(h1), Expand(second.value));
    } else {
      assert row1[..] == Repeat("", w);
    }
    r := Success(Grid(row0[..], row1[..], blocked[..], total, trs));
  }
}
