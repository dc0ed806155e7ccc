/**
 * `normalize_multilevel`: turns the header grid and the data rows into one
 * tariff item per (road row, tariff column). The "Vía", length and validity
 * columns are found by name in the first header row; every other column whose
 * header and cell are non-blank gives an item. A row without a readable
 * length takes the length of the nearest earlier road row that had one.
 */
module Normalize {
  import opened Wrappers
  import opened Text
  import opened ValueParsers

  /** One normalised tariff item, as the dictionary the source builds. */
  datatype Item = Item(via: string, longKm: Option<int>, vigenteDesde: string,
                       clase: string, ejes: Option<int>, tarifa: string)

  /** Positions of the road, length and validity columns, where found. */
  datatype Columns = Columns(via: Option<nat>, long: Option<nat>, vig: Option<nat>)

  /** The two header rows and the base columns found in the first. */
  datatype Layout = Layout(row0: seq<string>, row1: seq<string>, cols: Columns)

  const ViaNames: seq<string> := ["v\U{ed}a", "via"]
  const LongNames: seq<string> := ["long km", "long. km", "long (km)", "long(km)", "longitud", "long"]
  const VigNames: seq<string> := ["vigente desde", "vigencia", "fecha vigencia", "vigente"]

  // ---------------------------------------------------------------------------
  // Finding the base columns

  /** `[h.strip().lower() for h in row0]`. */
  function Heads(row0: seq<string>): (r: seq<string>)
    ensures |r| == |row0| && forall i :: 0 <= i < |row0| ==> r[i] == Lower(Strip(row0[i]))
  {
    seq(|row0|, i requires 0 <= i < |row0| => Lower(Strip(row0[i])))
  }

  /** `list.index`: the first position holding `name`. */
  function FirstIndex(heads: seq<string>, name: string): (r: nat)
    requires name in heads
    ensures r < |heads| && heads[r] == name
    ensures forall j :: 0 <= j < r ==> heads[j] != name
  {
    if heads[0] == name then 0 else 1 + FirstIndex(heads[1..], name)
  }

  /**
   * The column `find_col` picks: the first of `names`, in the order given,
   * that some header equals, at the first header equal to it; none when no
   * header equals any of them.
   */
  function FirstMatch(heads: seq<string>, names: seq<string>): (r: Option<nat>)
    ensures r.None? <==> forall k :: 0 <= k < |names| ==> names[k] !in heads
    ensures r.Some? ==> r.value < |heads|
    ensures r.Some? ==>
      exists k :: 0 <= k < |names| && heads[r.value] == names[k]
        && (forall k' :: 0 <= k' < k ==> names[k'] !in heads)
        && (forall j :: 0 <= j < r.value ==> heads[j] != names[k])
  {
    if names == [] then None
    else if names[0] in heads then Some(FirstIndex(heads, names[0]))
    else
      var r := FirstMatch(heads, names[1..]);
      assert forall k :: 1 <= k < |names| ==> names[1..][k - 1] == names[k];
      r
  }

  /** `find_col`, the loop over the candidate names. */
  method FindCol(heads: seq<string>, names: seq<string>) returns (r: Option<nat>)
    ensures r == FirstMatch(heads, names)
  {
    for k := 0 to |names|
      invariant FirstMatch(heads, names) == FirstMatch(heads, names[k..])
    {
      assert names[k..][1..] == names[k + 1..];
      if names[k] in heads {
        return Some(FirstIndex(heads, names[k]));
      }
    }
    return None;
  }

  function ColumnsOf(row0: seq<string>): (c: Columns)
    ensures c.via.Some? ==> c.via.value < |row0|
    ensures c.long.Some? ==> c.long.value < |row0|
    ensures c.vig.Some? ==> c.vig.value < |row0|
  {
    var heads := Heads(row0);
    Columns(FirstMatch(heads, ViaNames), FirstMatch(heads, LongNames), FirstMatch(heads, VigNames))
  }

  function LayoutOf(row0: seq<string>, row1: seq<string>): Layout {
    Layout(row0, row1, ColumnsOf(row0))
  }

  /** `base_idxs`: the positions of the base columns that were found. */
  function BaseCols(c: Columns): set<nat> {
    (if c.via.Some? then {c.via.value} else {})
      + (if c.long.Some? then {c.long.value} else {})
      + (if c.vig.Some? then {c.vig.value} else {})
  }

  /** Both header rows equally wide and every base column inside them. */
  predicate ValidLayout(l: Layout) {
    && |l.row1| == |l.row0|
    && (l.cols.via.Some? ==> l.cols.via.value < |l.row0|)
    && (l.cols.long.Some? ==> l.cols.long.value < |l.row0|)
    && (l.cols.vig.Some? ==> l.cols.vig.value < |l.row0|)
  }

  /** Every data row is at least as wide as the header. */
  predicate RowsFit(l: Layout, rows: seq<seq<string>>) {
    forall r :: 0 <= r < |rows| ==> |rows[r]| >= |l.row0|
  }

  // ---------------------------------------------------------------------------
  // One row

  /** `row[idx] if idx >= 0 else ""`. */
  function At(row: seq<string>, idx: Option<nat>): string
    requires idx.Some? ==> idx.value < |row|
  {
    if idx.Some? then row[idx.value] else ""
  }

  /** `(bot or "").strip() or (top or "")`: the axle text, from the second header row or else the first. */
  function EjesText(top: string, bot: string): string {
    if Strip(bot) != "" then Strip(bot) else top
  }

  /** What a tariff column of a row contributes to an item: its class, axle count and amount text. */
  datatype Priced = Priced(clase: string, ejes: Option<int>, tarifa: string)

  /** The tariff column `ci` of `row`, unless it is a base column or its header or its cell is blank. */
  function ColumnPrice(l: Layout, row: seq<string>, ci: nat): Option<Priced>
    requires ValidLayout(l) && |row| >= |l.row0| && ci < |l.row0|
  {
    if ci in BaseCols(l.cols) then None
    else
      var clase := Strip(l.row0[ci]);
      var tarifa := Strip(row[ci]);
      if clase == "" || tarifa == "" then None
      else Some(Priced(clase, ParseEjesInt(EjesText(l.row0[ci], l.row1[ci])), tarifa))
  }

  /**
   * A column gives an entry exactly when it is not a base column and neither
   * its header nor its cell is blank; the entry holds both stripped, and the
   * axle count read from the second header row, or from the first when the
   * second is blank there.
   */
  lemma ColumnPriceFields(l: Layout, row: seq<string>, ci: nat)
    requires ValidLayout(l) && |row| >= |l.row0| && ci < |l.row0|
    ensures var r := ColumnPrice(l, row, ci);
      && (r.Some? <==> ci !in BaseCols(l.cols) && Strip(l.row0[ci]) != "" && Strip(row[ci]) != "")
      && (r.Some? ==>
            r.value.clase != "" && r.value.tarifa != ""
            && r.value.clase == Strip(l.row0[ci]) && r.value.tarifa == Strip(row[ci])
            && r.value.ejes == ParseEjesInt(EjesText(l.row0[ci], l.row1[ci])))
  {
  }

  function AsSeq<T>(o: Option<T>): seq<T> {
    if o.Some? then [o.value] else []
  }

  /** The present values among the first n of `os`, in order. */
  function Somes<T>(os: seq<Option<T>>, n: nat): seq<T>
    requires n <= |os|
  {
    if n == 0 then [] else Somes(os, n - 1) + AsSeq(os[n - 1])
  }

  /** A value is kept exactly when some position among the first n holds it. */
  lemma {:induction false} SomesMembers<T>(os: seq<Option<T>>, n: nat)
    requires n <= |os|
    ensures forall p :: p in Somes(os, n) ==> exists i :: 0 <= i < n && os[i] == Some(p)
    ensures forall i :: 0 <= i < n && os[i].Some? ==> os[i].value in Somes(os, n)
  {
    if n > 0 {
      SomesMembers(os, n - 1);
      var prev, last := Somes(os, n - 1), AsSeq(os[n - 1]);
      assert Somes(os, n) == prev + last;
      forall p | p in prev + last ensures exists i :: 0 <= i < n && os[i] == Some(p) {
        if p in prev {
          var i :| 0 <= i < n - 1 && os[i] == Some(p);
        } else {
          assert os[n - 1] == Some(p);
        }
      }
    }
  }

  /** What each column of a row contributes, left to right. */
  function Prices(l: Layout, row: seq<string>): (r: seq<Option<Priced>>)
    requires ValidLayout(l) && |row| >= |l.row0|
    ensures |r| == |l.row0|
  {
    seq(|l.row0|, ci requires 0 <= ci < |l.row0| => ColumnPrice(l, row, ci))
  }

  /** The tariff columns among the first n, left to right. */
  function PricedUpTo(l: Layout, row: seq<string>, n: nat): seq<Priced>
    requires ValidLayout(l) && |row| >= |l.row0| && n <= |l.row0|
  {
    Somes(Prices(l, row), n)
  }

  /** A row's priced entries are exactly those its non-base, non-blank columns give. */
  lemma PricedMembers(l: Layout, row: seq<string>, n: nat)
    requires ValidLayout(l) && |row| >= |l.row0| && n <= |l.row0|
    ensures forall p :: p in PricedUpTo(l, row, n) ==> exists ci :: 0 <= ci < n && ColumnPrice(l, row, ci) == Some(p)
    ensures forall ci :: 0 <= ci < n && ColumnPrice(l, row, ci).Some? ==> ColumnPrice(l, row, ci).value in PricedUpTo(l, row, n)
  {
    SomesMembers(Prices(l, row), n);
    forall ci | 0 <= ci < n ensures Prices(l, row)[ci] == ColumnPrice(l, row, ci) {
    }
  }

  /** What the loop reads from one data row: road, parsed length, validity date and tariff columns. */
  datatype RowView = RowView(via: string, parsedKm: Option<int>, vigente: string, priced: seq<Priced>)

  function View(l: Layout, row: seq<string>): RowView
    requires ValidLayout(l) && |row| >= |l.row0|
  {
    RowView(At(row, l.cols.via), ParseLongKm(At(row, l.cols.long)), At(row, l.cols.vig),
            PricedUpTo(l, row, |l.row0|))
  }

  function Views(l: Layout, rows: seq<seq<string>>): (r: seq<RowView>)
    requires ValidLayout(l) && RowsFit(l, rows)
    ensures |r| == |rows|
  {
    seq(|rows|, i requires 0 <= i < |rows| => View(l, rows[i]))
  }

  /** The items of one road row once its length is known, one per tariff column. */
  function ItemsFor(via: string, km: Option<int>, vigente: string, ps: seq<Priced>): (r: seq<Item>)
    ensures |r| == |ps|
  {
    seq(|ps|, k requires 0 <= k < |ps| => Item(via, km, vigente, ps[k].clase, ps[k].ejes, ps[k].tarifa))
  }

  lemma ItemsForSnoc(via: string, km: Option<int>, vigente: string, ps: seq<Priced>, p: Priced)
    ensures ItemsFor(via, km, vigente, ps + [p])
         == ItemsFor(via, km, vigente, ps) + [Item(via, km, vigente, p.clase, p.ejes, p.tarifa)]
  {
    var a := ItemsFor(via, km, vigente, ps + [p]);
    var b := ItemsFor(via, km, vigente, ps) + [Item(via, km, vigente, p.clase, p.ejes, p.tarifa)];
    assert |a| == |b|;
    forall k | 0 <= k < |a| ensures a[k] == b[k] {
      if k < |ps| {
        assert (ps + [p])[k] == ps[k];
      }
    }
  }

  function RowItems(v: RowView, km: Option<int>): seq<Item> {
    ItemsFor(v.via, km, v.vigente, v.priced)
  }

  /** A parsed length, or else the one carried from earlier rows. */
  function Carry(parsed: Option<int>, last: Option<int>): Option<int> {
    if parsed.Some? then parsed else last
  }

  // ---------------------------------------------------------------------------
  // All rows: the loop as a left-to-right fold ...

  /** The items one row adds, given the length carried in. */
  function StepItems(v: RowView, last: Option<int>): seq<Item> {
    if v.via == "" then [] else RowItems(v, Carry(v.parsedKm, last))
  }

  /** `last_km` after one row. */
  function StepLast(v: RowView, last: Option<int>): Option<int> {
    if v.via == "" then last
    else
      var km := Carry(v.parsedKm, last);
      if km.Some? then km else last
  }

  /** The items of the rows from i on, given the length carried in from the rows before. */
  function NormFrom(vs: seq<RowView>, i: nat, last: Option<int>): seq<Item>
    requires i <= |vs|
    decreases |vs| - i
  {
    if i == |vs| then [] else StepItems(vs[i], last) + NormFrom(vs, i + 1, StepLast(vs[i], last))
  }

  // ... and as a reference definition that looks back from each row.

  /** The length the last road row of `vs` ended up with. */
  function LastKm(vs: seq<RowView>): Option<int> {
    if vs == [] then None
    else
      var v := vs[|vs| - 1];
      if v.via == "" then LastKm(vs[..|vs| - 1]) else Carry(v.parsedKm, LastKm(vs[..|vs| - 1]))
  }

  /** The length row i gets: its own if readable, else the last one readable before it. */
  function KmAt(vs: seq<RowView>, i: nat): Option<int>
    requires i < |vs|
  {
    Carry(vs[i].parsedKm, LastKm(vs[..i]))
  }

  function Ref(vs: seq<RowView>): seq<Item> {
    if vs == [] then []
    else
      var n := |vs|;
      Ref(vs[..n - 1]) + (if vs[n - 1].via == "" then [] else RowItems(vs[n - 1], KmAt(vs, n - 1)))
  }

  /** The carried length is the last length read from a road row, and there is none only if no road row had one. */
  lemma {:induction false} LastKmIsLastReadable(vs: seq<RowView>)
    ensures LastKm(vs).None? <==> forall j :: 0 <= j < |vs| ==> vs[j].via == "" || vs[j].parsedKm.None?
    ensures LastKm(vs).Some? ==>
      exists j :: 0 <= j < |vs| && vs[j].via != "" && vs[j].parsedKm == LastKm(vs)
        && forall j' :: j < j' < |vs| ==> vs[j'].via == "" || vs[j'].parsedKm.None?
  {
    if vs != [] {
      var n := |vs|;
      var p := vs[..n - 1];
      LastKmIsLastReadable(p);
      assert forall j :: 0 <= j < n - 1 ==> p[j] == vs[j];
      if vs[n - 1].via != "" && vs[n - 1].parsedKm.Some? {
        assert LastKm(vs) == vs[n - 1].parsedKm;
      } else if LastKm(p).Some? {
        var j :| 0 <= j < n - 1 && p[j].via != "" && p[j].parsedKm == LastKm(p)
          && forall j' :: j < j' < n - 1 ==> p[j'].via == "" || p[j'].parsedKm.None?;
        assert vs[j].via != "" && vs[j].parsedKm == LastKm(vs);
      }
    }
  }

  /** Running the fold from row i on, after the reference for the rows before i, gives the reference for all rows. */
  lemma {:induction false} FoldMatchesReference(vs: seq<RowView>, i: nat)
    requires i <= |vs|
    ensures Ref(vs[..i]) + NormFrom(vs, i, LastKm(vs[..i])) == Ref(vs)
    decreases |vs| - i
  {
    if i == |vs| {
      assert vs[..i] == vs;
    } else {
      RefStep(vs, i);
      FoldMatchesReference(vs, i + 1);
      var a, b, c := Ref(vs[..i]), StepItems(vs[i], LastKm(vs[..i])), NormFrom(vs, i + 1, LastKm(vs[..i + 1]));
      assert NormFrom(vs, i, LastKm(vs[..i])) == b + c;
      Assoc(a, b, c);
    }
  }

  /** Extending the prefix by row i extends the reference by that row's step. */
  lemma RefStep(vs: seq<RowView>, i: nat)
    requires i < |vs|
    ensures Ref(vs[..i + 1]) == Ref(vs[..i]) + StepItems(vs[i], LastKm(vs[..i]))
    ensures LastKm(vs[..i + 1]) == StepLast(vs[i], LastKm(vs[..i]))
  {
    var p, p' := vs[..i], vs[..i + 1];
    assert p'[..i] == p && p'[i] == vs[i];
    assert KmAt(p', i) == Carry(vs[i].parsedKm, LastKm(p));
  }

  /** The length a row gets depends only on the rows up to it. */
  lemma KmAtPrefix(vs: seq<RowView>, m: nat, i: nat)
    requires i < m <= |vs|
    ensures vs[..m][i] == vs[i] && KmAt(vs[..m], i) == KmAt(vs, i)
  {
    assert vs[..m][..i] == vs[..i];
  }

  /** Item k of a road row's items is the row's fields with its k-th priced column. */
  lemma RowItemsMembers(v: RowView, km: Option<int>)
    ensures forall it :: it in RowItems(v, km) ==>
      exists k :: 0 <= k < |v.priced| && it == Item(v.via, km, v.vigente, v.priced[k].clase, v.priced[k].ejes, v.priced[k].tarifa)
    ensures forall k :: 0 <= k < |v.priced| ==>
      Item(v.via, km, v.vigente, v.priced[k].clase, v.priced[k].ejes, v.priced[k].tarifa) in RowItems(v, km)
  {
    var r := RowItems(v, km);
    forall k | 0 <= k < |v.priced|
      ensures Item(v.via, km, v.vigente, v.priced[k].clase, v.priced[k].ejes, v.priced[k].tarifa) in r
    {
      assert r[k] == Item(v.via, km, v.vigente, v.priced[k].clase, v.priced[k].ejes, v.priced[k].tarifa);
    }
  }

  /** The items of the reference are exactly one per (road row, priced column), with the length that row gets. */
  lemma {:induction false} RefMembers(vs: seq<RowView>)
    ensures forall it :: it in Ref(vs) ==>
      exists i, k :: 0 <= i < |vs| && vs[i].via != "" && 0 <= k < |vs[i].priced|
        && it == Item(vs[i].via, KmAt(vs, i), vs[i].vigente, vs[i].priced[k].clase, vs[i].priced[k].ejes, vs[i].priced[k].tarifa)
    ensures forall i, k :: 0 <= i < |vs| && vs[i].via != "" && 0 <= k < |vs[i].priced| ==>
      Item(vs[i].via, KmAt(vs, i), vs[i].vigente, vs[i].priced[k].clase, vs[i].priced[k].ejes, vs[i].priced[k].tarifa) in Ref(vs)
  {
    if vs != [] {
      var n := |vs|;
      var p := vs[..n - 1];
      RefMembers(p);
      var v := vs[n - 1];
      var tail := if v.via == "" then [] else RowItems(v, KmAt(vs, n - 1));
      assert Ref(vs) == Ref(p) + tail;
      RowItemsMembers(v, KmAt(vs, n - 1));
      forall it | it in Ref(p) + tail
        ensures
          exists i, k :: 0 <= i < n && vs[i].via != "" && 0 <= k < |vs[i].priced|
            && it == Item(vs[i].via, KmAt(vs, i), vs[i].vigente, vs[i].priced[k].clase, vs[i].priced[k].ejes, vs[i].priced[k].tarifa)
      {
        if it in Ref(p) {
          var i, k :| 0 <= i < |p| && p[i].via != "" && 0 <= k < |p[i].priced|
            && it == Item(p[i].via, KmAt(p, i), p[i].vigente, p[i].priced[k].clase, p[i].priced[k].ejes, p[i].priced[k].tarifa);
          KmAtPrefix(vs, n - 1, i);
        } else {
          var k :| 0 <= k < |v.priced| && it == Item(v.via, KmAt(vs, n - 1), v.vigente, v.priced[k].clase, v.priced[k].ejes, v.priced[k].tarifa);
          assert v.via != "";
        }
      }
      forall i, k | 0 <= i < n && vs[i].via != "" && 0 <= k < |vs[i].priced|
        ensures Item(vs[i].via, KmAt(vs, i), vs[i].vigente, vs[i].priced[k].clase, vs[i].priced[k].ejes, vs[i].priced[k].tarifa) in Ref(p) + tail
      {
        if i < n - 1 {
          KmAtPrefix(vs, n - 1, i);
        }
      }
    }
  }

  /** `normalize_multilevel`, stated declaratively. */
  function Normalized(row0: seq<string>, row1: seq<string>, dataRows: seq<seq<string>>): seq<Item>
    requires |row1| == |row0|
    requires forall r :: 0 <= r < |dataRows| ==> |dataRows[r]| >= |row0|
  {
    Ref(Views(LayoutOf(row0, row1), dataRows))
  }

  // ---------------------------------------------------------------------------
  // The source's loop

  /** The per-column loop of one road row: its items, given the length it got. */
  method RowLoop(l: Layout, row: seq<string>, via: string, km: Option<int>, vigente: string) returns (items: seq<Item>)
    requires ValidLayout(l) && |row| >= |l.row0|
    ensures items == ItemsFor(via, km, vigente, PricedUpTo(l, row, |l.row0|))
  {
    var base := BaseCols(l.cols);
    ghost var cps := Prices(l, row);
    items := [];
    for ci := 0 to |l.row0|
      invariant items == ItemsFor(via, km, vigente, Somes(cps, ci))
    {
      ghost var ps := Somes(cps, ci);
      assert Somes(cps, ci + 1) == ps + AsSeq(cps[ci]);
      if ci in base {
        assert cps[ci] == None;
        continue;
      }
      var clase := Strip(l.row0[ci]);
      var ejesTxt := if Strip(l.row1[ci]) != "" then Strip(l.row1[ci]) else l.row0[ci];
      var tarifa := Strip(row[ci]);
      if clase == "" || tarifa == "" {
        assert cps[ci] == None;
        continue;
      }
      var ejes := ParseEjesInt(ejesTxt);
      assert cps[ci] == Some(Priced(clase, ejes, tarifa));
      ItemsForSnoc(via, km, vigente, ps, Priced(clase, ejes, tarifa));
      items := items + [Item(via, km, vigente, clase, ejes, tarifa)];
    }
  }

  /** `normalize_multilevel`: it produces exactly the reference items, in row and column order. */
  method NormalizeMultilevel(row0: seq<string>, row1: seq<string>, blocked: seq<bool>, dataRows: seq<seq<string>>)
    returns (results: seq<Item>)
    requires |row1| == |row0| && |blocked| == |row0|
    requires forall r :: 0 <= r < |dataRows| ==> |dataRows[r]| >= |row0|
    ensures results == Normalized(row0, row1, dataRows)
  {
    var cols := FindColumns(row0);
    var l := Layout(row0, row1, cols);
    ghost var vs := Views(l, dataRows);
    assert Normalized(row0, row1, dataRows) == Ref(vs);

    results := [];
    var lastKm: Option<int> := None;
    for i := 0 to |dataRows|
      invariant results + NormFrom(vs, i, lastKm) == NormFrom(vs, 0, None)
    {
      ghost var before := lastKm;
      var items;
      items, lastKm := NormalizeRow(l, dataRows[i], lastKm);
      assert vs[i] == View(l, dataRows[i]);
      assert NormFrom(vs, i, before) == items + NormFrom(vs, i + 1, lastKm);
      Assoc(results, items, NormFrom(vs, i + 1, lastKm));
      results := results + items;
    }
    assert results == Ref(vs) by {
      FoldMatchesReference(vs, 0);
      assert vs[..0] == [];
    }
  }

  /** The three `find_col` calls on the lower-cased, stripped first header row. */
  method FindColumns(row0: seq<string>) returns (cols: Columns)
    ensures cols == ColumnsOf(row0)
  {
    var heads := Heads(row0);
    var idxVia := FindCol(heads, ViaNames);
    var idxLong := FindCol(heads, LongNames);
    var idxVig := FindCol(heads, VigNames);
    cols := Columns(idxVia, idxLong, idxVig);
  }

  /** The body of the loop over the data rows: the items of one row and the new `last_km`. */
  method NormalizeRow(l: Layout, row: seq<string>, lastKm: Option<int>) returns (items: seq<Item>, newLast: Option<int>)
    requires ValidLayout(l) && |row| >= |l.row0|
    ensures items == StepItems(View(l, row), lastKm)
    ensures newLast == StepLast(View(l, row), lastKm)
  {
    var v := View(l, row);
    var via := if l.cols.via.Some? then row[l.cols.via.value] else "";
    assert v.via == via;
    if via == "" {
      return [], lastKm;
    }
    var rawKm := if l.cols.long.Some? then row[l.cols.long.value] else "";
    var km := ParseLongKm(rawKm);
    assert v.parsedKm == km;
    if km.None? && lastKm.Some? && via != "" {
      km := lastKm;
    }
    newLast := lastKm;
    if km.Some? {
      newLast := km;
    }
    var vigente := if l.cols.vig.Some? then row[l.cols.vig.value] else "";
    items := RowLoop(l, row, via, km, vigente);
  }
}
