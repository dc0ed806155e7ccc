# SIBUAC toll-tariff scraper: a Dafny model of its core

The scraper reads the toll-tariff tables that the SIBUAC site publishes. It
turns each table into one item per (road, vehicle class, axle count, amount)
and stores the items in a normalised SQLite schema. That schema has:

- road, vehicle-class and tariff-definition dimensions;
- a change-only history of amounts, one row per period in which a definition's amount stayed the same (SCD2);
- a snapshot per run, a raw capture, and a run ledger.

This project models the part of `scrapers/sibuac_tarifas_full.py` that does
that work:

- **Choosing the radio option** (`radio_choice.dfy`, module `RadioChoice`). This picks the search form's radio option, preferring "Todas las vías", then the second option of a group, then the last option of the first group. It is a method with loops, proved against a declarative `Choice`.
- **The header grid** (`header_grid.dfy`, module `HeaderGrid`). This reads the table's first two rows into two header rows of one width. It honours `colspan`, and a `rowspan` of two or more in the first row blocks the column in the second. `BuildHeaderGrid` fills arrays in place as the source fills its lists, and is proved against the declarative `HeaderSpec`.
- **Table post-processing** (`table.dfy`, module `Table`). This covers the busy-server page, the largest table, the "Vía" check, where data starts, and `expand_data_row`, which pads or cuts each data row to the header width.
- **Item extraction** (`normalize.dfy`, module `Normalize`). `normalize_multilevel` locates the road, length and validity columns by name. It turns every other non-blank column of every road row into an item, and a row whose length cannot be read reuses the last length read. The method is proved equal to a reference definition that looks back from each row, rather than carrying state forward.
- **The value parsers** (`value_parsers.dfy`, module `ValueParsers`). These are `parse_ejes_int`, `parse_long_km` and `_parse_decimal`, over a model of Python's `float()` for decimal literals and of `round()` with ties to even. The Python string operations they need (`strip`, `lower`, `replace`, `split`, `count`, `str(int)`) are in `text.dfy`, module `Text`.
- **The dimension upserts** (`resolver.dfy`, module `Resolver`). These are `_upsert_via` (including promotion of a row whose length was unknown), `_upsert_clase` and `_upsert_def`, written as functions over table contents.
- **The history and the run** (`history.dfy`, module `History`, and `store.dfy`, module `Store`):
  - the history helpers: `_hist_vigente`, `_close_hist` and `_insert_hist`;
  - the run-ledger and snapshot helpers;
  - `persist_items_normalizados`, as methods of the class `TariffStore`. Its fields are the tables, and its methods append to them or update them in place.

The uniqueness constraints and foreign keys of the schema are stated as
`Store.ValidDb`. The one-open-period-per-definition rule of the history is
`History.OneOpen`. Lemmas show that resolving and recording an item keep both.

`wrappers.dfy` holds `Option` and `Result`.

## Model

| member | source | states |
|---|---|---|
| RadioChoice.ChooseSecondRadioPayload | scrapers/sibuac_tarifas_full.py:127-150 | the grouping and search loops return exactly the declarative choice: nothing for no radios, else a label match, else a second option, else the first group's last option |
| RadioChoice.GroupRadios | scrapers/sibuac_tarifas_full.py:134-140 | groups the radios by name: names in first-appearance order, one group per name, each group holding that name's options in input order |
| RadioChoice.FindTodas | scrapers/sibuac_tarifas_full.py:142-145 | scanning the groups in order finds the first group with a "todas las vías" label, and that option's value |
| RadioChoice.FirstTodas | scrapers/sibuac_tarifas_full.py:143-145 | the value of the first option of a group whose lower-cased label holds "todas las vías" |
| RadioChoice.FindSecond | scrapers/sibuac_tarifas_full.py:146-148 | scanning the groups in order finds the first group with two or more options, and its second option's value |
| RadioChoice.LastOfFirstGroup | scrapers/sibuac_tarifas_full.py:149-150 | the fallback: the first radio's name and the value of the last option in its group |
| RadioChoice.OrderSpec | scrapers/sibuac_tarifas_full.py:134-139 | the group order lists each name once, holds exactly the radios' names, and starts with the first radio's name |
| RadioChoice.EntriesSpec | scrapers/sibuac_tarifas_full.py:136-140 | a group holds exactly the options of the radios with that name, a missing label read as "" |
| RadioChoice.TodasInSpec | scrapers/sibuac_tarifas_full.py:143-145 | a found value belongs to an option with a matching label; none found means no option's label matches |
| RadioChoice.SearchTodasSpec | scrapers/sibuac_tarifas_full.py:142-145 | the group found by the label search is one of the groups and its match; nothing found means no group has a match |
| RadioChoice.SearchSecondSpec | scrapers/sibuac_tarifas_full.py:146-148 | the group found has two or more options and the value is its second; nothing found means every group has at most one |
| RadioChoice.GroupStep | scrapers/sibuac_tarifas_full.py:136-140 | one radio more adds its name to the order only if new, appends its option to its own group only, and a new name had an empty group |
| RadioChoice.ChoiceIsOneRadio | scrapers/sibuac_tarifas_full.py:127-150 | the payload is empty only for no radios, and otherwise a single name mapped to the value of a radio with that name |
| RadioChoice.ChoicePrefersTodas | scrapers/sibuac_tarifas_full.py:142-145 | when any radio's label says "todas las vías", the payload is the name and value of such a radio |
| RadioChoice.ChoiceFirstTodasGroup | scrapers/sibuac_tarifas_full.py:142-145 | the first group in order of appearance with a matching label decides the payload |
| RadioChoice.SearchTodasFirst | scrapers/sibuac_tarifas_full.py:142-145 | the label search returns the first group, in the order given, that has a match |
| RadioChoice.ChoiceSecondOption | scrapers/sibuac_tarifas_full.py:146-148 | with no matching label, the first group with two or more options gives its second option |
| RadioChoice.SearchSecondFirst | scrapers/sibuac_tarifas_full.py:146-148 | the second-option search returns the first group, in the order given, with two or more options |
| RadioChoice.ChoiceFallsBackToFirst | scrapers/sibuac_tarifas_full.py:149-150 | with no matching label and no repeated name, the payload is the first radio's own name and value |
| RadioChoice.EntriesOfUniqueName | scrapers/sibuac_tarifas_full.py:136-140 | with no repeated name, every group holds a single option, that of its radio |
| RadioChoice.NoTodasIn | scrapers/sibuac_tarifas_full.py:143-144 | when no label matches, no group yields a label match |
| HeaderGrid.SpanAttr | scrapers/sibuac_tarifas_full.py:228-229 | a missing or empty span attribute counts as 1; any other text is read as Python's `int()` reads it |
| HeaderGrid.PyIntAcceptsOnlyDigits | scrapers/sibuac_tarifas_full.py:228-229 | `int()` accepts only an optional sign followed by at least one digit, after whitespace is stripped, and reads plain digits as their value |
| HeaderGrid.PyIntDigits | scrapers/sibuac_tarifas_full.py:228-229 | `int()` of a string of digits is their decimal value |
| HeaderGrid.PyIntMinusDigits | scrapers/sibuac_tarifas_full.py:228-229 | `int()` of a minus sign and digits is the negated value |
| HeaderGrid.PyIntIntToString | scrapers/sibuac_tarifas_full.py:228-229 | round trip: `int(str(n)) == n` for every integer, so every span value can be written as an attribute |
| HeaderGrid.DecodeCell | scrapers/sibuac_tarifas_full.py:227-232 | a cell decodes exactly when both span attributes do; it keeps its text and the spans read; a bad colspan is reported with its text |
| HeaderGrid.DecodeRow | scrapers/sibuac_tarifas_full.py:226-233 | a row decodes exactly when every cell does, cell by cell in order; otherwise the error is that of the first cell that fails |
| HeaderGrid.DecodeRowFirstFailure | scrapers/sibuac_tarifas_full.py:226-229 | the first bad cell of a row decides its error |
| HeaderGrid.ExpandRowCellsForHeader | scrapers/sibuac_tarifas_full.py:221-234 | the loop decodes the row as the declarative decoding does and sums the colspans into the column total |
| HeaderGrid.ExpandLength | scrapers/sibuac_tarifas_full.py:250-256 | spreading the first row fills at least the column total, exactly the total iff no colspan is negative, and something iff some colspan is positive |
| HeaderGrid.ExpandPrefix | scrapers/sibuac_tarifas_full.py:251-256 | the columns filled by the first k cells are a prefix of those filled by the whole row |
| HeaderGrid.ExpandAt | scrapers/sibuac_tarifas_full.py:251-256 | each column a cell spans holds that cell's text, and is blocked iff the cell's rowspan is 2 or more |
| HeaderGrid.OverflowIffNegativeSpan | scrapers/sibuac_tarifas_full.py:244-256 | writing the first row runs past `[""] * total_cols` exactly when one colspan is negative and another positive |
| HeaderGrid.CountFreeMonotone | scrapers/sibuac_tarifas_full.py:261-273 | free columns only accumulate from left to right, and a run of blocked columns adds none |
| HeaderGrid.Row1FillsFreeColumnsInOrder | scrapers/sibuac_tarifas_full.py:259-273 | the second header row is empty under blocked columns, and its free columns hold the second row's spread texts in order, then blanks |
| HeaderGrid.Row1Prefix | scrapers/sibuac_tarifas_full.py:266-273 | the second header row over the first c columns does not depend on later columns |
| HeaderGrid.NonEmptyRows | scrapers/sibuac_tarifas_full.py:239 | exactly the table rows with at least one cell are kept |
| HeaderGrid.NonEmptyRowsSingle | scrapers/sibuac_tarifas_full.py:239 | a row is kept exactly when it has a cell |
| HeaderGrid.NonEmptyRowsAppend | scrapers/sibuac_tarifas_full.py:239 | filtering two runs of rows in turn gives the filtered rows of each, in order |
| HeaderGrid.GridShape | scrapers/sibuac_tarifas_full.py:237-275 | a built grid has both header rows and the blocked flags as wide as the column total; the first row is spread from the first table row; the second is blank under blocked columns; the width is the sum of colspans when none is negative |
| HeaderGrid.NextFree | scrapers/sibuac_tarifas_full.py:261-264 | returns the first column at or after c that is neither blocked nor filled, or the width |
| HeaderGrid.FillFirstRow | scrapers/sibuac_tarifas_full.py:250-256 | the nested loops succeed iff the spread row fits the lists, and then leave the first header row and the blocked flags as the declarative spreading |
| HeaderGrid.FillCell | scrapers/sibuac_tarifas_full.py:267-273 | one second-row cell fills its span's worth of free columns after the current one, in agreement with the declarative second row |
| HeaderGrid.FillSecondRow | scrapers/sibuac_tarifas_full.py:259-273 | the loops leave the second header row equal to the declarative one |
| HeaderGrid.BuildHeaderGrid | scrapers/sibuac_tarifas_full.py:237-275 | the array-filling build returns exactly the declarative grid or error: no rows, a bad span attribute, or a write past the end of the lists |
| HeaderGrid.BuildFromFirstRow | scrapers/sibuac_tarifas_full.py:244-275 | given the first row's cells, the build gives the declarative grid |
| Table.LargestTable | scrapers/sibuac_tarifas_full.py:314 | the table chosen has no fewer rows than any other, and is the first of those with the most rows |
| Table.LowerAll | scrapers/sibuac_tarifas_full.py:318 | each header text is lower-cased |
| Table.ContainsInJoin | scrapers/sibuac_tarifas_full.py:318-319 | a word found in one header text is found in the joined header |
| Table.WordInPaddedJoin | scrapers/sibuac_tarifas_full.py:318-319 | every header text appears space-delimited in the space-padded join |
| Table.ViaHeaderAccepted | scrapers/sibuac_tarifas_full.py:318-321 | a header with a column containing "vía", or one that reads "via", passes the check |
| Table.DataStart | scrapers/sibuac_tarifas_full.py:324 | data starts at the third table row iff the second header row has a non-blank column, and at the second otherwise |
| Table.IgnoreRowspan | scrapers/sibuac_tarifas_full.py:329-331 | a data row keeps its cells; only their colspan is read |
| Table.PyPrefix | scrapers/sibuac_tarifas_full.py:338 | Python's `cells[:n]`, including a negative n counted from the end |
| Table.DataRowWidth | scrapers/sibuac_tarifas_full.py:326-339 | a data row is exactly as wide as a non-negative column total; each column holds the text of the cell spanning it, or "" past the row's cells |
| Table.AppendCopies | scrapers/sibuac_tarifas_full.py:332-333 | a cell adds its colspan's worth of copies of its text, none for a negative colspan |
| Table.SpreadCells | scrapers/sibuac_tarifas_full.py:328-333 | the loop spreads every cell by its colspan, or reports the first bad span attribute |
| Table.ExpandDataRow | scrapers/sibuac_tarifas_full.py:326-339 | the method equals the declarative data row: spread, then padded or cut to the column total |
| Table.DataRowsLast | scrapers/sibuac_tarifas_full.py:341 | a successful list of data rows ends with the last table row's own expansion |
| Table.DataRowsLength | scrapers/sibuac_tarifas_full.py:341 | one data row per table row |
| Table.DataRowsAt | scrapers/sibuac_tarifas_full.py:341 | data row k is the expansion of table row k |
| Table.DataRowsOneByOne | scrapers/sibuac_tarifas_full.py:341 | the data rows are the table rows expanded one by one, in order |
| Table.DataRowsSnoc | scrapers/sibuac_tarifas_full.py:341 | expanding one table row more appends its row or stops at its error |
| Table.DataRowsFailurePersists | scrapers/sibuac_tarifas_full.py:341 | the first failing table row decides the error of the whole list |
| Table.ParsedTableShape | scrapers/sibuac_tarifas_full.py:303-342 | a parsed table came from a page without the busy message and with tables; its header has a "Vía" column; its header rows are equally wide; it has one data row per row after the header, each as wide as the header |
| Table.ParseTableWithMultilevelHeaders | scrapers/sibuac_tarifas_full.py:303-342 | the method returns exactly the declarative parse: busy server, no tables, header error, missing "Vía", data-row error, or the table |
| Table.ParseDataRows | scrapers/sibuac_tarifas_full.py:317-342 | after the grid: the "Vía" check and the data rows, as declared |
| Normalize.Heads | scrapers/sibuac_tarifas_full.py:350 | each header is stripped and lower-cased |
| Normalize.FirstIndex | scrapers/sibuac_tarifas_full.py:354 | `list.index`: the first position holding the name |
| Normalize.FirstMatch | scrapers/sibuac_tarifas_full.py:351-355 | finds nothing iff no candidate name is a header; otherwise the position of the first candidate that is a header, at its first occurrence |
| Normalize.FindCol | scrapers/sibuac_tarifas_full.py:351-355 | the loop over candidate names finds the declarative first match |
| Normalize.ColumnsOf | scrapers/sibuac_tarifas_full.py:357-359 | the road, length and validity columns found are positions of the header |
| Normalize.FindColumns | scrapers/sibuac_tarifas_full.py:357-360 | the three searches with the source's candidate names |
| Normalize.ColumnPriceFields | scrapers/sibuac_tarifas_full.py:376-384 | a column yields an entry iff it is not a base column and neither its header nor its cell is blank; the class and amount are stripped, and the axle count is read from the second header row, or from the first when the second is blank |
| Normalize.SomesMembers | scrapers/sibuac_tarifas_full.py:376-384 | the kept entries of the column scan are exactly the columns that yield one |
| Normalize.Prices | scrapers/sibuac_tarifas_full.py:376 | one optional entry per header column |
| Normalize.PricedMembers | scrapers/sibuac_tarifas_full.py:376-384 | a row's entries are exactly those of its columns that yield one |
| Normalize.Views | scrapers/sibuac_tarifas_full.py:364-374 | one view per data row |
| Normalize.ItemsFor | scrapers/sibuac_tarifas_full.py:385-392 | one item per entry |
| Normalize.ItemsForSnoc | scrapers/sibuac_tarifas_full.py:385-392 | one entry more appends its item |
| Normalize.LastKmIsLastReadable | scrapers/sibuac_tarifas_full.py:363-373 | the carried length is the one read from the last road row with a readable length, and there is none iff no road row had one |
| Normalize.FoldMatchesReference | scrapers/sibuac_tarifas_full.py:362-393 | the forward loop that carries the last length produces the same items as the reference that looks back from each row |
| Normalize.RefStep | scrapers/sibuac_tarifas_full.py:364-373 | one row more appends that row's items and updates the carried length as the loop does |
| Normalize.KmAtPrefix | scrapers/sibuac_tarifas_full.py:369-373 | the length a row gets does not depend on later rows |
| Normalize.RowItemsMembers | scrapers/sibuac_tarifas_full.py:376-392 | a road row's items are exactly one per entry, carrying the row's road, length and validity |
| Normalize.RefMembers | scrapers/sibuac_tarifas_full.py:362-393 | the items are exactly one per (road row with a non-blank road, priced column), each with the length that row gets |
| Normalize.RowLoop | scrapers/sibuac_tarifas_full.py:376-392 | the column loop produces one item per priced column, in column order |
| Normalize.NormalizeRow | scrapers/sibuac_tarifas_full.py:365-392 | one data row: no items for a blank road, else its items with its own length or the carried one, and the new carried length |
| Normalize.NormalizeMultilevel | scrapers/sibuac_tarifas_full.py:345-393 | the method returns the items of the reference definition for the header rows and the data rows |
| ValueParsers.FirstDigit | scrapers/sibuac_tarifas_full.py:281 | the first digit position at or after i, or the end |
| ValueParsers.DigitRunEnd | scrapers/sibuac_tarifas_full.py:281 | the end of the run of digits starting at i |
| ValueParsers.ParseEjesInt | scrapers/sibuac_tarifas_full.py:278-282 | no number iff the text has no digit; otherwise the value of its first maximal run of digits |
| ValueParsers.ParseEjesIntReadsNumber | scrapers/sibuac_tarifas_full.py:278-282 | a number written after text without digits, and not followed by a digit, is read back exactly |
| ValueParsers.ExponentMark | scrapers/sibuac_tarifas_full.py:298 | the position of the first `e` or `E`, or the end |
| ValueParsers.ExponentMarkAbsent | scrapers/sibuac_tarifas_full.py:298 | text without `e` or `E` has no exponent part |
| ValueParsers.ParseMantissaPoint | scrapers/sibuac_tarifas_full.py:298 | digits, a point and digits read as that exact decimal |
| ValueParsers.PointLiteralChars | scrapers/sibuac_tarifas_full.py:298 | a point literal has no whitespace and no exponent mark |
| ValueParsers.PyFloatPointLiteral | scrapers/sibuac_tarifas_full.py:298 | `float()` reads digits, a point and digits as that exact decimal |
| ValueParsers.RoundHalfEven | scrapers/sibuac_tarifas_full.py:298 | the result is an integer nearest to the value |
| ValueParsers.CollapseDots | scrapers/sibuac_tarifas_full.py:294-296 | collapsing several dots leaves exactly one dot and adds no space or comma |
| ValueParsers.KmTextShape | scrapers/sibuac_tarifas_full.py:288-296 | the cleaned length text has no space, no comma and at most one dot |
| ValueParsers.ParseLongKm | scrapers/sibuac_tarifas_full.py:285-300 | blank text has no length; otherwise a length is read exactly when `float()` reads the cleaned text, and it is the integer nearest to that value |
| ValueParsers.ParseLongKmWholeKms | scrapers/sibuac_tarifas_full.py:285-300 | digits followed by " kms" read as exactly that whole number |
| ValueParsers.DropUnitsKm | scrapers/sibuac_tarifas_full.py:290-291 | removing the units from a literal followed by " km" leaves the literal and one space |
| ValueParsers.KmTextPointKm | scrapers/sibuac_tarifas_full.py:287-296 | `w.f km` is cleaned to `w.f` |
| ValueParsers.ParseLongKmPointKm | scrapers/sibuac_tarifas_full.py:285-300 | `w.f km` is read, and the length is within half a unit of wf / 10^\|f\| |
| ValueParsers.KmUnitRemoved | scrapers/sibuac_tarifas_full.py:288-293 | a lower-case length without spaces or a `k`, followed by ` km`, is cleaned back to itself |
| ValueParsers.KmTextThousands | scrapers/sibuac_tarifas_full.py:287-296 | `a,b.f km` is cleaned to `ab.f`: the comma becomes a dot and only the last dot is kept |
| ValueParsers.KmPointValue | scrapers/sibuac_tarifas_full.py:285-300 | an unpadded length whose cleaned text is `w.f` is read as the whole number nearest to wf / 10^\|f\| |
| ValueParsers.ParseLongKmThousands | scrapers/sibuac_tarifas_full.py:285-300 | `a,b.f km` (such as `1,234.0 km`) is read as the whole number nearest to abf / 10^\|f\| |
| ValueParsers.PyFloatChars | scrapers/sibuac_tarifas_full.py:297-298 | text that `float()` reads holds only whitespace, digits, a point, signs and exponent marks |
| ValueParsers.ParseLongKmRejects | scrapers/sibuac_tarifas_full.py:297-300 | a character that is neither whitespace nor part of a decimal literal, such as a letter, means no length |
| ValueParsers.CleanAmount | scrapers/sibuac_tarifas_full.py:492-493 | the amount text has no currency sign and no space left |
| ValueParsers.ReplaceCommaByDot | scrapers/sibuac_tarifas_full.py:500-501 | a decimal comma becomes the only dot |
| ValueParsers.CountMatches | scrapers/sibuac_tarifas_full.py:500-501 | replacing one character by another keeps the count |
| ValueParsers.DecimalTextShape | scrapers/sibuac_tarifas_full.py:492-506 | the cleaned amount has no currency sign, no space, at most one dot, and keeps a comma only when the text had no dot and not exactly one comma |
| ValueParsers.ParseDecimal | scrapers/sibuac_tarifas_full.py:489-511 | an amount is read exactly when `float()` reads the cleaned text |
| ValueParsers.ParseDecimalValue | scrapers/sibuac_tarifas_full.py:489-511 | cleaned text `w.f` reads as wf / 10^\|f\| |
| ValueParsers.DecimalTextDollarPoint | scrapers/sibuac_tarifas_full.py:492-493 | "$" before `w.f` is dropped |
| ValueParsers.ParseDecimalDollarPoint | scrapers/sibuac_tarifas_full.py:489-511 | "$" and `w.f` read as wf / 10^\|f\| |
| ValueParsers.DecimalTextCommaDecimal | scrapers/sibuac_tarifas_full.py:500-501 | `w,f` becomes `w.f` |
| ValueParsers.ParseDecimalCommaDecimal | scrapers/sibuac_tarifas_full.py:489-511 | a single decimal comma, `w,f`, reads as wf / 10^\|f\| |
| ValueParsers.DecimalTextThousands | scrapers/sibuac_tarifas_full.py:496-497 | in `a,b.f` the thousands comma is dropped |
| ValueParsers.ParseDecimalThousands | scrapers/sibuac_tarifas_full.py:489-511 | `a,b.f` reads as abf / 10^\|f\| |
| ValueParsers.DecimalTextDots | scrapers/sibuac_tarifas_full.py:504-506 | clean text with no comma and several dots keeps only its last dot |
| ValueParsers.TwoDotsShape | scrapers/sibuac_tarifas_full.py:504-506 | `a.b.f` splits at its two dots into a, b and f |
| ValueParsers.DecimalTextEarlierDots | scrapers/sibuac_tarifas_full.py:504-506 | `a.b.f` becomes `ab.f` |
| ValueParsers.ParseDecimalEarlierDots | scrapers/sibuac_tarifas_full.py:489-511 | `a.b.f` reads as abf / 10^\|f\| |
| ValueParsers.ParseDecimalRejects | scrapers/sibuac_tarifas_full.py:508-511 | a character that is neither whitespace, a currency sign, a comma nor part of a decimal literal means no amount |
| ValueParsers.ParseDecimalWord | scrapers/sibuac_tarifas_full.py:508-511 | "abc" is not an amount |
| ValueParsers.DropsNoNewChars | scrapers/sibuac_tarifas_full.py:504-506 | collapsing dots introduces no new character |
| Text.Strip | scrapers/sibuac_tarifas_full.py:288 | `str.strip()`: no longer than the input, no whitespace at either end, empty iff the text is all whitespace, unchanged when it has none |
| Text.StripIdempotent | scrapers/sibuac_tarifas_full.py:538 | stripping twice is stripping once, so the class name stripped when the item is read is stored as it is |
| Text.KeepLastDotIsRemoveEarlierDots | scrapers/sibuac_tarifas_full.py:504-506 | joining the split pieces around the last one deletes every dot but the last |
| Text.NatToStringValue | scrapers/sibuac_tarifas_full.py:608 | `str(n)` reads back as n |
| Resolver.FindFrom | scrapers/sibuac_tarifas_full.py:522 | the first row at or after i equal to the key, or none |
| Resolver.Find | scrapers/sibuac_tarifas_full.py:522-533 | a lookup finds a row iff the key is in the table, and then the first such row |
| Resolver.FindUnique | scrapers/sibuac_tarifas_full.py:545-551 | in a table without duplicates, a lookup finds the one row equal to the key |
| Resolver.InsertSpec | scrapers/sibuac_tarifas_full.py:539-554 | insert-or-get resolves to a row equal to the key; it adds a row only when none was there; it keeps the table free of duplicates |
| Resolver.UpsertViaSpec | scrapers/sibuac_tarifas_full.py:513-533 | the road resolves to a row for exactly (road, length); a row with unknown length is promoted in place; a row is added only when neither was there; no other row changes; no duplicates |
| Resolver.UpsertViaIdempotent | scrapers/sibuac_tarifas_full.py:513-533 | resolving the same road and length again gives the same row and changes nothing |
| Resolver.ClaseNameOfStripped | scrapers/sibuac_tarifas_full.py:538 | a blank class name is stored as "SIN CLASE", any other as given; the stored name is never empty |
| Resolver.UpsertDefNullIsItsOwnRow | scrapers/sibuac_tarifas_full.py:543-554 | a definition with unknown axles and one with a known axle count are different rows |
| History.OpenBelow | scrapers/sibuac_tarifas_full.py:557-562 | the open period of the definition with the highest id, or none when it has no open period |
| History.TrackChanges | scrapers/sibuac_tarifas_full.py:630-637 | tracking adds one open row with the amount exactly when there was no open period or its amount differs; the only other change is closing the previous open row at the new start date |
| History.TrackKeepsOneOpen | scrapers/sibuac_tarifas_full.py:630-637 | tracking keeps at most one open period per definition |
| History.TrackOpensAmount | scrapers/sibuac_tarifas_full.py:630-637 | after tracking, the definition's open period carries the amount just tracked |
| History.TrackIdempotent | scrapers/sibuac_tarifas_full.py:630-637 | tracking the same amount again writes nothing |
| History.TrackOtherDefinitions | scrapers/sibuac_tarifas_full.py:630-637 | other definitions' periods and open period are untouched |
| History.TrackAllPeriods | scrapers/sibuac_tarifas_full.py:630-637 | from no history, a run of amounts writes one period per run of equal consecutive amounts, and the open period carries the last amount |
| History.TwoPeriodsExample | scrapers/sibuac_tarifas_full.py:630-637 | amounts 10, 10, 12.5, 12.5 make two periods |
| Store.RawsOf | scrapers/sibuac_tarifas_full.py:605-612 | one raw row per item, with unknown numbers written as "" |
| Store.RawsOfSnoc | scrapers/sibuac_tarifas_full.py:603-612 | one item more appends its raw row |
| Store.Links | scrapers/sibuac_tarifas_full.py:633-637 | the run's item links point at consecutive new history rows |
| Store.LinksStep | scrapers/sibuac_tarifas_full.py:633-637 | a new period adds one link to the history row just written; otherwise none |
| Store.RawsStep | scrapers/sibuac_tarifas_full.py:603-612 | with raw capture on, the raw rows are those of the items seen so far; with it off, there are none |
| Store.OfRunSnoc | scrapers/sibuac_tarifas_full.py:628 | a snapshot of the run appended keeps every new snapshot tied to the run and its cut-off date |
| Store.SnapshotsGrow | scrapers/sibuac_tarifas_full.py:618-628 | a stored item adds exactly one snapshot of the run after the earlier ones; a skipped item adds none |
| Store.CountKeptStep | scrapers/sibuac_tarifas_full.py:614-619 | one item more counts one more stored item exactly when it is stored |
| Store.CountKept | scrapers/sibuac_tarifas_full.py:614-619 | at most one stored item per item |
| Store.Processed | scrapers/sibuac_tarifas_full.py:602-643 | the run gets through every item, or up to the failing one |
| Store.ResolveGrows | scrapers/sibuac_tarifas_full.py:621-623 | resolving an item's dimensions only grows the tables or promotes a road row in place; it adds at most one definition, keeps all three dimension tables free of duplicates, and the new definition points at existing rows |
| Store.GrownTablesValid | scrapers/sibuac_tarifas_full.py:621-623 | such growth keeps every constraint of the schema |
| Store.ResolveKeepsValid | scrapers/sibuac_tarifas_full.py:621-623 | resolving an item keeps the uniqueness constraints, the foreign keys and one open period per definition |
| Store.RecordKeepsValid | scrapers/sibuac_tarifas_full.py:627-637 | writing the snapshot, the history step and the link keeps every constraint |
| Store.ResolvedRows | scrapers/sibuac_tarifas_full.py:621-623 | resolving writes exactly the rows the three upserts return, and the id is the definition upsert's |
| Store.ResolveStep | scrapers/sibuac_tarifas_full.py:621-623 | tables on which the three upserts wrote their rows are `Resolved`, the id names an existing definition, and the constraints are kept |
| Store.DefIdOfTables | scrapers/sibuac_tarifas_full.py:621-623 | the resolved id depends on the road, class and definition tables alone |
| Store.DefIdOfBounds | scrapers/sibuac_tarifas_full.py:621-623 | the resolved id names a row of the resolved definitions |
| Store.ItemStepSkips | scrapers/sibuac_tarifas_full.py:603-619 | an item with a blank road or an unreadable amount only adds its raw row and opens no period |
| Store.ItemStepStores | scrapers/sibuac_tarifas_full.py:603-637 | a stored item adds its raw row, is resolved, and is recorded under the resolved definition; it opens a period exactly when that definition has none at its amount |
| Store.ItemStepTables | scrapers/sibuac_tarifas_full.py:603-637 | one turn: the raw row when capture is on; no run record; for a skipped item nothing else; for a stored one one snapshot of the run and the change-only history step; a new period and its link exactly when `Opens` |
| Store.ItemStepKeepsValid | scrapers/sibuac_tarifas_full.py:603-637 | one turn keeps every constraint and leaves the run records alone |
| Store.ItemStepFacts | scrapers/sibuac_tarifas_full.py:603-637 | one turn writes what `StepFacts` lists: its raw row, at most one snapshot of the run, no new period or one linked to the run, and no run record |
| Store.RunChain | scrapers/sibuac_tarifas_full.py:603-637 | the states of the loop form a chain from the first tables to `RunFold` |
| Store.ChainRaws | scrapers/sibuac_tarifas_full.py:603-612 | along the chain the raw rows are those of the items seen, in order, and the run records are untouched |
| Store.ChainSnapshots | scrapers/sibuac_tarifas_full.py:618-628 | along the chain the earlier snapshots stay and one snapshot of the run is added per stored item |
| Store.ChainLinks | scrapers/sibuac_tarifas_full.py:633-637 | along the chain every new period is linked to the run, in order |
| Store.ChainValid | scrapers/sibuac_tarifas_full.py:603-637 | along the chain every constraint is kept |
| Store.ChainTables | scrapers/sibuac_tarifas_full.py:603-637 | from the chain's first state to its last: the raw rows, the snapshots and the links above |
| Store.RunRaws | scrapers/sibuac_tarifas_full.py:603-612 | the loop writes the raw rows of its items, in order, when capture is on, and no run record |
| Store.RunSnapshots | scrapers/sibuac_tarifas_full.py:618-628 | after the earlier snapshots the loop adds one snapshot of the run per stored item |
| Store.RunLinks | scrapers/sibuac_tarifas_full.py:633-637 | every period the loop opens is linked to the run, in order, and nothing else is linked |
| Store.RunKeepsValid | scrapers/sibuac_tarifas_full.py:603-637 | the whole loop keeps every constraint and leaves the run records alone |
| Store.ItemStepOpensAmount | scrapers/sibuac_tarifas_full.py:627-637 | after a stored item its definition's open period carries the item's amount, whether a period was opened or the open one already had it |
| Store.ItemStepKeepsOthers | scrapers/sibuac_tarifas_full.py:603-637 | a skipped item, or one stored under another definition, leaves a definition's open period as it was |
| Store.RunStates | scrapers/sibuac_tarifas_full.py:603-637 | the loop's states, each the fold over the items before it |
| Store.RunKeepsOpenAmount | scrapers/sibuac_tarifas_full.py:603-637 | items stored under other definitions leave a definition's open period as an earlier item left it |
| Store.RunOpensLastAmounts | scrapers/sibuac_tarifas_full.py:603-637 | SCD2: after the run, the open period of every definition carries the amount of the last item stored under it |
| Store.RunRecordsKeepValid | scrapers/sibuac_tarifas_full.py:576-585 | adding or updating a run record keeps every constraint |
| Store.TariffStore.UpsertVia | scrapers/sibuac_tarifas_full.py:513-533 | the road table becomes the declarative upsert's, and the id is that row's position + 1 |
| Store.TariffStore.UpsertClase | scrapers/sibuac_tarifas_full.py:536-540 | the class table becomes the declarative upsert's, and the id is that row's |
| Store.TariffStore.UpsertDef | scrapers/sibuac_tarifas_full.py:543-554 | the definition table becomes the declarative upsert's, and the id is that row's |
| Store.TariffStore.HistVigente | scrapers/sibuac_tarifas_full.py:557-562 | returns the id and amount of an open period of the definition with no open period after it, and nothing iff there is none |
| Store.TariffStore.CloseHist | scrapers/sibuac_tarifas_full.py:565-566 | sets the end date of that history row and changes nothing else |
| Store.TariffStore.InsertHist | scrapers/sibuac_tarifas_full.py:569-573 | appends an open period with fuente "SIBUAC" and returns its id |
| Store.TariffStore.BeginConsulta | scrapers/sibuac_tarifas_full.py:576-581 | appends a RUNNING run record and returns its id |
| Store.TariffStore.EndConsulta | scrapers/sibuac_tarifas_full.py:584-585 | sets that run's status and changes nothing else |
| Store.TariffStore.AppendCItem | scrapers/sibuac_tarifas_full.py:588-589 | appends the link between the run and the history row |
| Store.TariffStore.InsertSnapshotDef | scrapers/sibuac_tarifas_full.py:592-596 | appends the snapshot row with fuente "SIBUAC" |
| Store.TariffStore.Resolve | scrapers/sibuac_tarifas_full.py:621-623 | the tables become the declarative resolution `Resolved` (the three upserts in turn, nothing else changed), the id is `DefIdOf`, that of an existing definition, and every constraint is kept |
| Store.TariffStore.Record | scrapers/sibuac_tarifas_full.py:627-637 | always one snapshot; the history becomes the change-only step, and a new period is reported and linked to the run exactly when one is written; the tables become `Recorded`, and every constraint is kept when the definition and the run exist |
| Store.TariffStore.PersistKept | scrapers/sibuac_tarifas_full.py:621-637 | the tables become `Recorded` after `Resolved`, a new period is reported exactly when the resolved definition has no open period at this amount, and every constraint is kept |
| Store.TariffStore.PersistItem | scrapers/sibuac_tarifas_full.py:603-637 | the tables become `ItemStep` of the old tables, a new period is reported exactly when `Opens` holds, and every constraint is kept |
| Store.TariffStore.PersistAll | scrapers/sibuac_tarifas_full.py:603-637 | the tables become `RunFold` over the first n items; their raw rows, one snapshot of the run per stored item, and the returned count equal to the history rows added, each linked to the run; every constraint is kept |
| Store.TariffStore.PersistItems | scrapers/sibuac_tarifas_full.py:599-643 | a run records RUNNING then OK or the error; apart from the run record the tables become `RunFold` over the items it got through, so it writes their raw rows and snapshots and links every new period to the run; it returns the number of new periods, or re-raises the storage error; every constraint is kept |

## Left out

- The network, the HTML parser and the form handling (`get_form_and_session`, `pick_form`, `extract_form_data`, the select helpers, `looks_like_tarifas_table`, `post_consultar`) are not part of this model. A page arrives as its text and its tables, and a table as its rows of cells, each with text (after `get_text(strip=True)`) and its optional `colspan` and `rowspan` attributes.
- `dump_html`, `main`, `app.py`, `ensure_db_norm` and SQLite itself (transactions, commits, `PRAGMA`s) are left out. The tables are sequences in memory and are never deleted from, so the row at position k has id k + 1, as AUTOINCREMENT gives.
- A storage failure is the `fault` parameter of `Store.TariffStore.PersistItems`: the store raises its message when the run reaches that item, before any of the item's writes. A failure half-way through one item's writes is not modelled.
- The run's timestamp is the `executedAt` parameter. Of the parameters JSON, only the cut-off date is kept. `captured_at` of the raw rows is not modelled.
- The amount parser is a parameter of the store's operations. In the source the run calls `_parse_decimal`, which `ValueParsers.ParseDecimal` models; every store contract holds for any parser passed in.
- Amounts are exact rationals (`real`), not IEEE doubles. Float rounding, `inf`, `nan` and overflow are not modelled, and two amounts are equal when they are equal as numbers.
- Python's `int()` and `float()` are modelled on ASCII digits only. Unicode digits and `_` separators are not accepted, nor are `float()`'s `inf`/`nan` spellings.
- `Text.Lower` lower-cases ASCII and Latin-1 letters only; the headers and labels here need no more.
- `\d` in `parse_ejes_int` matches ASCII digits only.
- Normalize.NormalizeMultilevel: requires both header rows and the blocked flags to be equally wide, and every data row at least as wide as the header. `parse_table_with_multilevel_headers` always produces them so; other shapes, where Python would truncate in `zip` or raise `IndexError`, are not modelled.
- Normalize.NormalizeMultilevel: the `row1_blocked` argument is accepted and, as in the source, not used.
- RadioChoice.ChooseSecondRadioPayload: each radio's `checked` flag is carried in its group, as in the source, and never used.
- Store.TariffStore.UpsertVia: a length given as text is not re-parsed. Items carry a length already parsed by `parse_long_km`, so the `to_int` branch for text is not modelled.
