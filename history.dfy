// The change-only (SCD2) tariff history: one `tarifa_historial` row per
// period in which a definition's amount stayed the same.

module History {
  import opened Wrappers

  /** The `fuente` written on every row. */
  const Fuente := "SIBUAC"

  /**
   * A row of `tarifa_historial`. Rows are never deleted, so the row at
   * position k has id k + 1. `hasta` is None while the period is open.
   */
  datatype HistRow = HistRow(defId: nat, tarifa: real, desde: string, hasta: Option<string>, fuente: string)

  /** Row i is an open period of definition d. */
  predicate IsOpen(h: seq<HistRow>, d: nat, i: int) {
    0 <= i < |h| && h[i].defId == d && h[i].hasta.None?
  }

  /** No definition has two open periods. */
  predicate OneOpen(h: seq<HistRow>) {
    forall i, j :: 0 <= i < |h| && 0 <= j < |h| && h[i].hasta.None? && h[j].hasta.None? && h[i].defId == h[j].defId ==> i == j
  }

  /** The open period of d with the highest position below n. */
  function OpenBelow(h: seq<HistRow>, d: nat, n: nat): (r: Option<nat>)
    requires n <= |h|
    ensures r.Some? ==> r.value < n && IsOpen(h, d, r.value) && forall j :: r.value < j < n ==> !IsOpen(h, d, j)
    ensures r.None? ==> forall j :: 0 <= j < n ==> !IsOpen(h, d, j)
  {
    if n == 0 then None
    else if IsOpen(h, d, n - 1) then Some(n - 1)
    else OpenBelow(h, d, n - 1)
  }

  /** `_hist_vigente`: the open period of d with the highest id, if any. */
  function OpenIndex(h: seq<HistRow>, d: nat): Option<nat> {
    OpenBelow(h, d, |h|)
  }

  /** A fresh open period, as `_insert_hist` writes it. */
  function Entry(d: nat, amount: real, desde: string): HistRow {
    HistRow(d, amount, desde, None, Fuente)
  }

  /** Whether tracking `amount` for d writes a new period: there is no open one, or its amount differs. */
  predicate Adds(h: seq<HistRow>, d: nat, amount: real) {
    var o := OpenIndex(h, d);
    o.None? || h[o.value].tarifa != amount
  }

  /**
   * The history step of `persist_items_normalizados`: open a period when
   * there is none; when the amount changed, close the open one at `desde`
   * and open a new one from `desde`; when it is the same, write nothing.
   */
  function Track(h: seq<HistRow>, d: nat, amount: real, desde: string): seq<HistRow> {
    match OpenIndex(h, d)
    case None => h + [Entry(d, amount, desde)]
    case Some(i) =>
      if h[i].tarifa == amount then h
      else h[i := h[i].(hasta := Some(desde))] + [Entry(d, amount, desde)]
  }

  /**
   * What one step changes: exactly one new open row when it adds, and
   * otherwise nothing; besides that, only the previous open row of d may
   * change, and only by being closed at `desde`.
   */
  lemma TrackChanges(h: seq<HistRow>, d: nat, amount: real, desde: string)
    ensures var r := Track(h, d, amount, desde);
      && |r| == |h| + (if Adds(h, d, amount) then 1 else 0)
      && (Adds(h, d, amount) ==> r[|h|] == Entry(d, amount, desde))
      && (forall i :: 0 <= i < |h| && OpenIndex(h, d) != Some(i) ==> r[i] == h[i])
      && (OpenIndex(h, d).Some? ==>
            var i := OpenIndex(h, d).value;
            r[i] == if Adds(h, d, amount) then h[i].(hasta := Some(desde)) else h[i])
  {
  }

  /** Tracking keeps at most one open period per definition. */
  lemma TrackKeepsOneOpen(h: seq<HistRow>, d: nat, amount: real, desde: string)
    requires OneOpen(h)
    ensures OneOpen(Track(h, d, amount, desde))
  {
    var r := Track(h, d, amount, desde);
    TrackChanges(h, d, amount, desde);
    if Adds(h, d, amount) {
      forall i | 0 <= i < |h| && r[i].defId == d ensures r[i].hasta.Some? {
        var o := OpenIndex(h, d);
        if o.None? {
          assert !IsOpen(h, d, i);
        } else if o.value != i {
          assert IsOpen(h, d, o.value);
        }
      }
      forall i, j | 0 <= i < |r| && 0 <= j < |r| && r[i].hasta.None? && r[j].hasta.None? && r[i].defId == r[j].defId
        ensures i == j
      {
        if i < |h| && j < |h| {
          assert h[i].hasta.None? && h[j].hasta.None?;
        }
      }
    }
  }

  /** After tracking, d has an open period, and it carries the amount just tracked. */
  lemma TrackOpensAmount(h: seq<HistRow>, d: nat, amount: real, desde: string)
    ensures var r := Track(h, d, amount, desde);
      OpenIndex(r, d).Some? && r[OpenIndex(r, d).value].tarifa == amount
  {
    var r := Track(h, d, amount, desde);
    TrackChanges(h, d, amount, desde);
    if Adds(h, d, amount) {
      assert IsOpen(r, d, |h|);
      assert OpenIndex(r, d) == Some(|h|);
    }
  }

  /** Tracking the same amount again writes nothing. */
  lemma TrackIdempotent(h: seq<HistRow>, d: nat, amount: real, desde: string, desde': string)
    ensures Track(Track(h, d, amount, desde), d, amount, desde') == Track(h, d, amount, desde)
  {
    TrackOpensAmount(h, d, amount, desde);
  }

  /** Tracking d leaves the periods of every other definition as they were. */
  lemma TrackOtherDefinitions(h: seq<HistRow>, d: nat, amount: real, desde: string, e: nat)
    requires e != d
    ensures var r := Track(h, d, amount, desde);
      && (forall i :: 0 <= i < |h| && h[i].defId == e ==> r[i] == h[i])
      && (forall i :: |h| <= i < |r| ==> r[i].defId != e)
      && OpenIndex(r, e) == OpenIndex(h, e)
  {
    var r := Track(h, d, amount, desde);
    TrackChanges(h, d, amount, desde);
    forall j | 0 <= j < |r| ensures IsOpen(r, e, j) <==> IsOpen(h, e, j) {
      if j < |h| && OpenIndex(h, d) == Some(j) {
        assert h[j].defId == d;
      }
    }
    var o := OpenIndex(h, e);
    if o.Some? {
      assert IsOpen(r, e, o.value);
      assert OpenIndex(r, e) == o;
    } else {
      assert OpenIndex(r, e) == None;
    }
  }

  // ---------------------------------------------------------------------------
  // A run of observations of one definition

  /** Tracking a sequence of (amount, desde) observations of d, in order. */
  function TrackAll(h: seq<HistRow>, d: nat, obs: seq<(real, string)>): seq<HistRow> {
    if obs == [] then h
    else
      var n := |obs|;
      Track(TrackAll(h, d, obs[..n - 1]), d, obs[n - 1].0, obs[n - 1].1)
  }

  /** The number of periods a sequence of amounts makes: one, plus one per change from the amount before. */
  function Periods(obs: seq<(real, string)>): nat {
    if |obs| <= 1 then |obs|
    else
      var n := |obs|;
      Periods(obs[..n - 1]) + (if obs[n - 1].0 != obs[n - 2].0 then 1 else 0)
  }

  /**
   * Starting from no history, a run of observations writes one period per
   * run of equal consecutive amounts, and the open period carries the last
   * amount.
   */
  lemma {:induction false} TrackAllPeriods(d: nat, obs: seq<(real, string)>)
    ensures |TrackAll([], d, obs)| == Periods(obs)
    ensures obs != [] ==>
      var r := TrackAll([], d, obs);
      OpenIndex(r, d).Some? && r[OpenIndex(r, d).value].tarifa == obs[|obs| - 1].0
  {
    var n := |obs|;
    if n == 1 {
      assert obs[..0] == [];
      TrackOpensAmount([], d, obs[0].0, obs[0].1);
    } else if n > 1 {
      var p := obs[..n - 1];
      TrackAllPeriods(d, p);
      assert p[..n - 2] == obs[..n - 2] && p[n - 2] == obs[n - 2];
      var h := TrackAll([], d, p);
      TrackChanges(h, d, obs[n - 1].0, obs[n - 1].1);
      TrackOpensAmount(h, d, obs[n - 1].0, obs[n - 1].1);
    }
  }

  /** Amounts 10, 10, 12.5, 12.5 make two periods. */
  lemma TwoPeriodsExample(d: nat)
    ensures |TrackAll([], d, [(10.0, "a"), (10.0, "b"), (12.5, "c"), (12.5, "d")])| == 2
  {
    var obs := [(10.0, "a"), (10.0, "b"), (12.5, "c"), (12.5, "d")];
    TrackAllPeriods(d, obs);
    assert obs[..3][..2][..1] == obs[..1] == [(10.0, "a")];
    assert obs[..3][..2] == obs[..2];
    assert Periods(obs[..2]) == 1;
    assert Periods(obs[..3]) == 2;
  }
}
