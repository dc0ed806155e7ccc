// The normalised tariff store and `persist_items_normalizados`: the run
// ledger, the raw capture, the snapshots, the dimension resolver and the
// change-only history, over tables held in memory.

module Store {
  import opened Wrappers
  import opened Text
  import Normalize
  import opened Resolver
  import opened History

  /** The status a run record goes through: RUNNING, then OK or an error. */
  datatype RunStatus = Running | Ok | Error(message: string)

  /** The text stored in `consulta.status`. */
  function StatusText(s: RunStatus): string {
    match s
    case Running => "RUNNING"
    case Ok => "OK"
    case Error(m) => "ERROR: " + m
  }

  /** A row of `consulta`; the parameters recorded are the cut-off date (the source fixed "SIBUAC"). */
  datatype Consulta = Consulta(executedAt: string, fechaCorte: string, status: RunStatus)

  /** A row of `consulta_item`: a history row written by a run. */
  datatype CItem = CItem(consultaId: nat, histId: nat)

  /** A row of `tarifa_snapshot`. */
  datatype Snapshot = Snapshot(defId: nat, consultaId: nat, fechaCorte: string, vigenteDesde: string, tarifa: real, fuente: string)

  /** A row of `tarifa_snapshot_raw`: the item as received, numbers written out as text. */
  datatype RawRow = RawRow(via: string, longKm: string, vigenteDesde: string, clase: string, ejes: string, tarifa: string)

  /** All tables at one moment. Every table only grows or is updated in place, so row k has id k + 1. */
  datatype Db = Db(vias: seq<ViaRow>, clases: seq<string>, defs: seq<DefRow>, hist: seq<HistRow>,
                   consultas: seq<Consulta>, citems: seq<CItem>, snapshots: seq<Snapshot>, raws: seq<RawRow>)

  /** The uniqueness constraints, every foreign key pointing at an existing row, and one open period per definition. */
  predicate ValidDb(db: Db) {
    && Unique(db.vias) && Unique(db.clases) && Unique(db.defs)
    && (forall i :: 0 <= i < |db.defs| ==> 1 <= db.defs[i].viaId <= |db.vias| && 1 <= db.defs[i].claseId <= |db.clases|)
    && (forall i :: 0 <= i < |db.hist| ==> 1 <= db.hist[i].defId <= |db.defs|)
    && OneOpen(db.hist)
    && (forall i :: 0 <= i < |db.snapshots| ==>
          1 <= db.snapshots[i].defId <= |db.defs| && 1 <= db.snapshots[i].consultaId <= |db.consultas|)
    && (forall i :: 0 <= i < |db.citems| ==>
          1 <= db.citems[i].consultaId <= |db.consultas| && 1 <= db.citems[i].histId <= |db.hist|)
  }

  /** `str(x) if x is not None else ""` for an optional integer. */
  function OptText(x: Option<int>): string {
    if x.Some? then IntToString(x.value) else ""
  }

  /** The raw-capture row of an item. */
  function RawOf(it: Normalize.Item): RawRow {
    RawRow(it.via, OptText(it.longKm), it.vigenteDesde, it.clase, OptText(it.ejes), it.tarifa)
  }

  function RawsOf(items: seq<Normalize.Item>): (r: seq<RawRow>)
    ensures |r| == |items| && forall i :: 0 <= i < |items| ==> r[i] == RawOf(items[i])
  {
    seq(|items|, i requires 0 <= i < |items| => RawOf(items[i]))
  }

  /** The raw rows of one more item. */
  lemma RawsOfSnoc(items: seq<Normalize.Item>, it: Normalize.Item)
    ensures RawsOf(items + [it]) == RawsOf(items) + [RawOf(it)]
  {
  }

  /** The run links of n new periods, the first of them with id base + 1. */
  function Links(cid: nat, base: nat, n: nat): (r: seq<CItem>)
    ensures |r| == n && forall k :: 0 <= k < n ==> r[k] == CItem(cid, base + k + 1)
  {
    if n == 0 then [] else Links(cid, base, n - 1) + [CItem(cid, base + n)]
  }

  /** One item's links added to a run's links so far. */
  lemma LinksStep(c0: seq<CItem>, cPrev: seq<CItem>, cNext: seq<CItem>, cid: nat, h0: nat, hPrev: nat, hNext: nat, nuevo: bool)
    requires h0 <= hPrev && cPrev == c0 + Links(cid, h0, hPrev - h0)
    requires hNext == hPrev + (if nuevo then 1 else 0)
    requires cNext == cPrev + (if nuevo then [CItem(cid, hNext)] else [])
    ensures cNext == c0 + Links(cid, h0, hNext - h0)
  {
    if nuevo {
      Assoc(c0, Links(cid, h0, hPrev - h0), [CItem(cid, hNext)]);
    }
  }

  /** One item's raw row added to a run's raw rows so far. */
  lemma RawsStep(r0: seq<RawRow>, rPrev: seq<RawRow>, rNext: seq<RawRow>, items: seq<Normalize.Item>, i: nat, saveRaw: bool)
    requires i < |items|
    requires rPrev == r0 + (if saveRaw then RawsOf(items[..i]) else [])
    requires rNext == rPrev + (if saveRaw then [RawOf(items[i])] else [])
    ensures rNext == r0 + (if saveRaw then RawsOf(items[..i + 1]) else [])
  {
    assert items[..i + 1] == items[..i] + [items[i]];
    RawsOfSnoc(items[..i], items[i]);
    Assoc(r0, RawsOf(items[..i]), [RawOf(items[i])]);
  }

  /** Snapshots taken by run cid at cut-off date fc. */
  predicate OfRun(ss: seq<Snapshot>, cid: nat, fc: string) {
    forall k :: 0 <= k < |ss| ==> ss[k].consultaId == cid && ss[k].fechaCorte == fc
  }

  /** One more snapshot of the same run. */
  lemma OfRunSnoc(ss: seq<Snapshot>, x: Snapshot, cid: nat, fc: string)
    requires OfRun(ss, cid, fc) && x.consultaId == cid && x.fechaCorte == fc
    ensures OfRun(ss + [x], cid, fc)
  {
  }

  /** One item's snapshot, if it is stored, added to a run's snapshots so far. */
  lemma SnapshotsGrow(s0: seq<Snapshot>, sPrev: seq<Snapshot>, sNext: seq<Snapshot>, kept: bool, cid: nat, fc: string)
    requires |s0| <= |sPrev| && sPrev[..|s0|] == s0 && OfRun(sPrev[|s0|..], cid, fc)
    requires !kept ==> sNext == sPrev
    requires kept ==>
      && |sNext| == |sPrev| + 1 && sNext[..|sPrev|] == sPrev
      && sNext[|sPrev|].consultaId == cid && sNext[|sPrev|].fechaCorte == fc
    ensures |s0| <= |sNext| && sNext[..|s0|] == s0
    ensures |sNext| - |s0| == |sPrev| - |s0| + (if kept then 1 else 0)
    ensures OfRun(sNext[|s0|..], cid, fc)
  {
    if kept {
      assert sNext == sPrev + [sNext[|sPrev|]];
      assert sNext[|s0|..] == sPrev[|s0|..] + [sNext[|sPrev|]];
      OfRunSnoc(sPrev[|s0|..], sNext[|sPrev|], cid, fc);
    }
  }

  /** The count of stored items over a prefix one item longer. */
  lemma CountKeptStep(parse: string -> Option<real>, items: seq<Normalize.Item>, i: nat)
    requires i < |items|
    ensures CountKept(parse, items[..i + 1]) == CountKept(parse, items[..i]) + (if Kept(parse, items[i]) then 1 else 0)
  {
    assert items[..i + 1][..i] == items[..i];
  }

  /**
   * An item is stored only when its road is not blank and its amount parses.
   * The amount parser is a parameter of the store's operations; the run uses
   * `ParseDecimal`.
   */
  predicate Kept(parse: string -> Option<real>, it: Normalize.Item) {
    Strip(it.via) != "" && parse(it.tarifa).Some?
  }

  /** How many of the items are stored. */
  function CountKept(parse: string -> Option<real>, items: seq<Normalize.Item>): (n: nat)
    ensures n <= |items|
  {
    if items == [] then 0 else CountKept(parse, items[..|items| - 1]) + (if Kept(parse, items[|items| - 1]) then 1 else 0)
  }

  /** `vigente_desde or fecha_corte`. */
  function Desde(it: Normalize.Item, fechaCorte: string): string {
    if it.vigenteDesde != "" then it.vigenteDesde else fechaCorte
  }

  /** A storage failure: the store raises `message` when the run reaches item `at`, before writing anything for it. */
  datatype Fault = Fault(at: nat, message: string)

  /** Whether the run meets its fault. */
  predicate Fails(items: seq<Normalize.Item>, fault: Option<Fault>) {
    fault.Some? && fault.value.at < |items|
  }

  /** How many items the run gets through. */
  function Processed(items: seq<Normalize.Item>, fault: Option<Fault>): (n: nat)
    ensures n <= |items|
  {
    if Fails(items, fault) then fault.value.at else |items|
  }

  /** The tables after resolving an item's road, class and definition. */
  function Resolved(db: Db, via: string, km: Option<int>, clase: string, ejes: Option<int>): Db {
    var v := Resolver.UpsertVia(db.vias, via, km);
    var c := Resolver.UpsertClase(db.clases, clase);
    var d := Resolver.UpsertDef(db.defs, v.index + 1, c.index + 1, ejes);
    db.(vias := v.rows, clases := c.rows, defs := d.rows)
  }

  /**
   * r differs from db only in the road, class and definition tables; each of
   * those kept its rows' count or grew and has no duplicates; the definitions
   * kept their rows, and any added one points at existing rows.
   */
  predicate Grown(db: Db, r: Db) {
    && r == db.(vias := r.vias, clases := r.clases, defs := r.defs)
    && |db.vias| <= |r.vias| && |db.clases| <= |r.clases|
    && Unique(r.vias) && Unique(r.clases) && Unique(r.defs)
    && |db.defs| <= |r.defs| && r.defs[..|db.defs|] == db.defs
    && forall i :: |db.defs| <= i < |r.defs| ==> 1 <= r.defs[i].viaId <= |r.vias| && 1 <= r.defs[i].claseId <= |r.clases|
  }

  /** Resolving an item's road, class and definition keeps every constraint. */
  lemma ResolveKeepsValid(db: Db, via: string, km: Option<int>, clase: string, ejes: Option<int>)
    requires ValidDb(db)
    ensures ValidDb(Resolved(db, via, km, clase, ejes))
  {
    ResolveGrows(db, via, km, clase, ejes);
    GrownTablesValid(db, Resolved(db, via, km, clase, ejes));
  }

  /** Tables that only grew as `Grown` says keep every constraint. */
  lemma GrownTablesValid(db: Db, r: Db)
    requires ValidDb(db) && Grown(db, r)
    ensures ValidDb(r)
  {
    forall i | 0 <= i < |r.defs|
      ensures 1 <= r.defs[i].viaId <= |r.vias| && 1 <= r.defs[i].claseId <= |r.clases|
    {
      if i < |db.defs| {
        assert r.defs[i] == db.defs[i];
      }
    }
  }

  /**
   * What resolving does to the three tables: each keeps its rows' count or
   * grows and stays free of duplicates, and the definitions gain at most the
   * resolved row, which points at the resolved road and class.
   */
  lemma ResolveGrows(db: Db, via: string, km: Option<int>, clase: string, ejes: Option<int>)
    requires Unique(db.vias) && Unique(db.clases) && Unique(db.defs)
    ensures Grown(db, Resolved(db, via, km, clase, ejes))
    ensures |Resolved(db, via, km, clase, ejes).defs| <= |db.defs| + 1
  {
    var v := Resolver.UpsertVia(db.vias, via, km);
    var c := Resolver.UpsertClase(db.clases, clase);
    var x := DefRow(v.index + 1, c.index + 1, ejes);
    UpsertViaSpec(db.vias, via, km);
    InsertSpec(db.clases, ClaseName(clase));
    InsertSpec(db.defs, x);
    var r := Resolved(db, via, km, clase, ejes);
    assert r.defs == Resolver.UpsertDef(db.defs, v.index + 1, c.index + 1, ejes).rows;
  }

  /**
   * The tables after a stored item's snapshot and history step: one snapshot
   * of run cid, the history tracked, and a run link when a period was opened.
   */
  function Recorded(db: Db, defId: nat, amount: real, desde: string, fechaCorte: string, cid: nat): Db {
    var h := Track(db.hist, defId, amount, desde);
    db.(snapshots := db.snapshots + [Snapshot(defId, cid, fechaCorte, desde, amount, Fuente)],
        hist := h,
        citems := db.citems + (if Adds(db.hist, defId, amount) then [CItem(cid, |h|)] else []))
  }

  /** A snapshot, a history step and the run links of a new period keep every constraint. */
  lemma RecordKeepsValid(db: Db, defId: nat, amount: real, desde: string, fechaCorte: string, cid: nat)
    requires ValidDb(db) && 1 <= defId <= |db.defs| && 1 <= cid <= |db.consultas|
    ensures ValidDb(Recorded(db, defId, amount, desde, fechaCorte, cid))
  {
    TrackKeepsOneOpen(db.hist, defId, amount, desde);
    TrackChanges(db.hist, defId, amount, desde);
  }

  /** The id of the definition that road, class and axles resolve to. */
  function DefIdOf(db: Db, via: string, km: Option<int>, clase: string, ejes: Option<int>): nat {
    var v := Resolver.UpsertVia(db.vias, via, km);
    var c := Resolver.UpsertClase(db.clases, clase);
    Resolver.UpsertDef(db.defs, v.index + 1, c.index + 1, ejes).index + 1
  }

  /** Resolving writes the rows the three lookups return, and the id is the definition lookup's. */
  lemma ResolvedRows(db: Db, via: string, km: Option<int>, clase: string, ejes: Option<int>)
    ensures var v := Resolver.UpsertVia(db.vias, via, km);
      var c := Resolver.UpsertClase(db.clases, clase);
      var d := Resolver.UpsertDef(db.defs, v.index + 1, c.index + 1, ejes);
      && Resolved(db, via, km, clase, ejes) == db.(vias := v.rows, clases := c.rows, defs := d.rows)
      && DefIdOf(db, via, km, clase, ejes) == d.index + 1
  {
  }

  /** Tables on which the three lookups wrote their rows are the resolved tables, and the last id is the resolved one. */
  lemma ResolveStep(db: Db, r: Db, via: string, km: Option<int>, clase: string, ejes: Option<int>, viaId: nat, claseId: nat, defId: nat)
    requires var v := Resolver.UpsertVia(db.vias, via, km); r.vias == v.rows && viaId == v.index + 1
    requires var c := Resolver.UpsertClase(db.clases, clase); r.clases == c.rows && claseId == c.index + 1
    requires var d := Resolver.UpsertDef(db.defs, viaId, claseId, ejes); r.defs == d.rows && defId == d.index + 1
    requires r == db.(vias := r.vias, clases := r.clases, defs := r.defs)
    ensures r == Resolved(db, via, km, clase, ejes)
    ensures defId == DefIdOf(db, via, km, clase, ejes) && 1 <= defId <= |r.defs|
    ensures ValidDb(db) ==> ValidDb(r)
  {
    ResolvedRows(db, via, km, clase, ejes);
    DefIdOfBounds(db, via, km, clase, ejes);
    if ValidDb(db) {
      ResolveKeepsValid(db, via, km, clase, ejes);
    }
  }

  /** The resolved id depends on the road, class and definition tables alone. */
  lemma DefIdOfTables(a: Db, b: Db, via: string, km: Option<int>, clase: string, ejes: Option<int>)
    requires a.vias == b.vias && a.clases == b.clases && a.defs == b.defs
    ensures DefIdOf(a, via, km, clase, ejes) == DefIdOf(b, via, km, clase, ejes)
  {
  }

  /** The resolved id names a row of the resolved definitions. */
  lemma DefIdOfBounds(db: Db, via: string, km: Option<int>, clase: string, ejes: Option<int>)
    ensures 1 <= DefIdOf(db, via, km, clase, ejes) <= |Resolved(db, via, km, clase, ejes).defs|
  {
    var v := Resolver.UpsertVia(db.vias, via, km);
    var c := Resolver.UpsertClase(db.clases, clase);
    InsertSpec(db.defs, DefRow(v.index + 1, c.index + 1, ejes));
  }

  /** The definition a stored item belongs to: its stripped road and class, its length and its axles. */
  function ItemDefId(db: Db, it: Normalize.Item): nat {
    DefIdOf(db, Strip(it.via), it.longKm, Strip(it.clase), it.ejes)
  }

  /** The raw capture of one item, when it is on. */
  function WithRaw(db: Db, it: Normalize.Item, saveRaw: bool): Db {
    if saveRaw then db.(raws := db.raws + [RawOf(it)]) else db
  }

  /**
   * One turn of the loop of `persist_items_normalizados`: the raw row; then,
   * for an item with a road and an amount, its road, class and definition
   * resolved, and its snapshot and history step recorded.
   */
  function ItemStep(db: Db, it: Normalize.Item, fechaCorte: string, saveRaw: bool, cid: nat, parse: string -> Option<real>): Db {
    var db1 := WithRaw(db, it, saveRaw);
    if !Kept(parse, it) then db1
    else
      Recorded(Resolved(db1, Strip(it.via), it.longKm, Strip(it.clase), it.ejes),
               ItemDefId(db, it), parse(it.tarifa).value, Desde(it, fechaCorte), fechaCorte, cid)
  }

  /** Whether an item opens a period: it is stored, and its definition has no open period at its amount. */
  predicate Opens(db: Db, it: Normalize.Item, parse: string -> Option<real>) {
    Kept(parse, it) && Adds(db.hist, ItemDefId(db, it), parse(it.tarifa).value)
  }

  /** A turn on an item that is not stored only captures its raw row. */
  lemma ItemStepSkips(db: Db, it: Normalize.Item, fechaCorte: string, saveRaw: bool, cid: nat, parse: string -> Option<real>)
    requires !Kept(parse, it)
    ensures ItemStep(db, it, fechaCorte, saveRaw, cid, parse) == WithRaw(db, it, saveRaw)
    ensures !Opens(db, it, parse)
  {
  }

  /** A turn on a stored item resolves and records it on the tables with its raw row. */
  lemma ItemStepStores(db: Db, it: Normalize.Item, fechaCorte: string, saveRaw: bool, cid: nat, parse: string -> Option<real>)
    requires Kept(parse, it)
    ensures var db1 := WithRaw(db, it, saveRaw);
      var via, clase := Strip(it.via), Strip(it.clase);
      var d := DefIdOf(db1, via, it.longKm, clase, it.ejes);
      && ItemStep(db, it, fechaCorte, saveRaw, cid, parse)
         == Recorded(Resolved(db1, via, it.longKm, clase, it.ejes), d, parse(it.tarifa).value, Desde(it, fechaCorte), fechaCorte, cid)
      && db1.hist == db.hist
      && (Opens(db, it, parse) <==> Adds(db.hist, d, parse(it.tarifa).value))
  {
    DefIdOfTables(WithRaw(db, it, saveRaw), db, Strip(it.via), it.longKm, Strip(it.clase), it.ejes);
  }

  /**
   * What one turn writes: the raw row when the capture is on; for a stored
   * item one snapshot of the run and one history step; a run link for each
   * period opened; nothing else.
   */
  lemma ItemStepTables(db: Db, it: Normalize.Item, fechaCorte: string, saveRaw: bool, cid: nat, parse: string -> Option<real>)
    ensures var r := ItemStep(db, it, fechaCorte, saveRaw, cid, parse);
      && r.raws == db.raws + (if saveRaw then [RawOf(it)] else [])
      && r.consultas == db.consultas
      && (!Kept(parse, it) ==> r == db.(raws := r.raws))
      && (Kept(parse, it) ==>
            var d := ItemDefId(db, it);
            var amount := parse(it.tarifa).value;
            var desde := Desde(it, fechaCorte);
            && r.snapshots == db.snapshots + [Snapshot(d, cid, fechaCorte, desde, amount, Fuente)]
            && r.hist == Track(db.hist, d, amount, desde))
      && |r.hist| == |db.hist| + (if Opens(db, it, parse) then 1 else 0)
      && r.citems == db.citems + (if Opens(db, it, parse) then [CItem(cid, |r.hist|)] else [])
  {
    if Kept(parse, it) {
      TrackChanges(db.hist, ItemDefId(db, it), parse(it.tarifa).value, Desde(it, fechaCorte));
    }
  }

  /** The tables after the loop has handled the items in order. */
  function RunFold(db: Db, items: seq<Normalize.Item>, fechaCorte: string, saveRaw: bool, cid: nat, parse: string -> Option<real>): Db
    decreases |items|
  {
    if items == [] then db
    else ItemStep(RunFold(db, items[..|items| - 1], fechaCorte, saveRaw, cid, parse), items[|items| - 1], fechaCorte, saveRaw, cid, parse)
  }

  /** One turn keeps every constraint and leaves the run records alone. */
  lemma ItemStepKeepsValid(db: Db, it: Normalize.Item, fechaCorte: string, saveRaw: bool, cid: nat, parse: string -> Option<real>)
    requires ValidDb(db) && 1 <= cid <= |db.consultas|
    ensures var r := ItemStep(db, it, fechaCorte, saveRaw, cid, parse);
      ValidDb(r) && r.consultas == db.consultas
  {
    var db1 := WithRaw(db, it, saveRaw);
    assert ValidDb(db1);
    if Kept(parse, it) {
      var via, clase := Strip(it.via), Strip(it.clase);
      ItemStepStores(db, it, fechaCorte, saveRaw, cid, parse);
      ResolveKeepsValid(db1, via, it.longKm, clase, it.ejes);
      DefIdOfBounds(db1, via, it.longKm, clase, it.ejes);
      RecordKeepsValid(Resolved(db1, via, it.longKm, clase, it.ejes), DefIdOf(db1, via, it.longKm, clase, it.ejes),
                       parse(it.tarifa).value, Desde(it, fechaCorte), fechaCorte, cid);
    } else {
      ItemStepSkips(db, it, fechaCorte, saveRaw, cid, parse);
    }
  }

  /**
   * What a turn is known to write, without saying how: the raw row, one
   * snapshot of the run when the item is stored, either no new period or one
   * linked to the run, no run record, and every constraint kept.
   */
  ghost predicate StepFacts(db: Db, r: Db, it: Normalize.Item, fechaCorte: string, saveRaw: bool, cid: nat, parse: string -> Option<real>) {
    && r.raws == db.raws + (if saveRaw then [RawOf(it)] else [])
    && r.consultas == db.consultas
    && (!Kept(parse, it) ==> r.snapshots == db.snapshots)
    && (Kept(parse, it) ==>
          && |r.snapshots| == |db.snapshots| + 1 && r.snapshots[..|db.snapshots|] == db.snapshots
          && r.snapshots[|db.snapshots|].consultaId == cid && r.snapshots[|db.snapshots|].fechaCorte == fechaCorte)
    && ((|r.hist| == |db.hist| && r.citems == db.citems)
        || (|r.hist| == |db.hist| + 1 && r.citems == db.citems + [CItem(cid, |r.hist|)]))
    && (ValidDb(db) && 1 <= cid <= |db.consultas| ==> ValidDb(r))
  }

  lemma ItemStepFacts(db: Db, it: Normalize.Item, fechaCorte: string, saveRaw: bool, cid: nat, parse: string -> Option<real>)
    ensures StepFacts(db, ItemStep(db, it, fechaCorte, saveRaw, cid, parse), it, fechaCorte, saveRaw, cid, parse)
  {
    ItemStepTables(db, it, fechaCorte, saveRaw, cid, parse);
    if ValidDb(db) && 1 <= cid <= |db.consultas| {
      ItemStepKeepsValid(db, it, fechaCorte, saveRaw, cid, parse);
    }
  }

  /** Consecutive states of a run, each turn writing what `StepFacts` says. */
  ghost predicate Chain(states: seq<Db>, items: seq<Normalize.Item>, fechaCorte: string, saveRaw: bool, cid: nat, parse: string -> Option<real>) {
    && |states| == |items| + 1
    && forall k :: 0 <= k < |items| ==> StepFacts(states[k], states[k + 1], items[k], fechaCorte, saveRaw, cid, parse)
  }

  /** The states of a run form a chain from the first tables to the last. */
  lemma RunChain(db: Db, items: seq<Normalize.Item>, fechaCorte: string, saveRaw: bool, cid: nat, parse: string -> Option<real>)
    returns (states: seq<Db>)
    ensures Chain(states, items, fechaCorte, saveRaw, cid, parse)
    ensures states[0] == db && states[|items|] == RunFold(db, items, fechaCorte, saveRaw, cid, parse)
  {
    states := RunStates(db, items, fechaCorte, saveRaw, cid, parse);
    forall k | 0 <= k < |items|
      ensures StepFacts(states[k], states[k + 1], items[k], fechaCorte, saveRaw, cid, parse)
    {
      ItemStepFacts(states[k], items[k], fechaCorte, saveRaw, cid, parse);
    }
    assert items[..0] == [] && items[..|items|] == items;
  }

  lemma {:induction false} ChainRaws(states: seq<Db>, items: seq<Normalize.Item>, n: nat, fechaCorte: string, saveRaw: bool, cid: nat, parse: string -> Option<real>)
    requires Chain(states, items, fechaCorte, saveRaw, cid, parse) && n <= |items|
    ensures states[n].raws == states[0].raws + (if saveRaw then RawsOf(items[..n]) else [])
    ensures states[n].consultas == states[0].consultas
  {
    if n == 0 {
      assert items[..0] == [];
    } else {
      ChainRaws(states, items, n - 1, fechaCorte, saveRaw, cid, parse);
      assert StepFacts(states[n - 1], states[n], items[n - 1], fechaCorte, saveRaw, cid, parse);
      RawsStep(states[0].raws, states[n - 1].raws, states[n].raws, items, n - 1, saveRaw);
    }
  }

  lemma {:induction false} ChainSnapshots(states: seq<Db>, items: seq<Normalize.Item>, n: nat, fechaCorte: string, saveRaw: bool, cid: nat, parse: string -> Option<real>)
    requires Chain(states, items, fechaCorte, saveRaw, cid, parse) && n <= |items|
    ensures var s0, sn := states[0].snapshots, states[n].snapshots;
      && |s0| <= |sn| && sn[..|s0|] == s0
      && |sn| - |s0| == CountKept(parse, items[..n])
      && OfRun(sn[|s0|..], cid, fechaCorte)
  {
    var s0 := states[0].snapshots;
    if n == 0 {
      assert items[..0] == [];
    } else {
      ChainSnapshots(states, items, n - 1, fechaCorte, saveRaw, cid, parse);
      assert StepFacts(states[n - 1], states[n], items[n - 1], fechaCorte, saveRaw, cid, parse);
      CountKeptStep(parse, items, n - 1);
      SnapshotsGrow(s0, states[n - 1].snapshots, states[n].snapshots, Kept(parse, items[n - 1]), cid, fechaCorte);
    }
  }

  lemma {:induction false} ChainLinks(states: seq<Db>, items: seq<Normalize.Item>, n: nat, fechaCorte: string, saveRaw: bool, cid: nat, parse: string -> Option<real>)
    requires Chain(states, items, fechaCorte, saveRaw, cid, parse) && n <= |items|
    ensures |states[0].hist| <= |states[n].hist|
    ensures states[n].citems == states[0].citems + Links(cid, |states[0].hist|, |states[n].hist| - |states[0].hist|)
  {
    if n > 0 {
      ChainLinks(states, items, n - 1, fechaCorte, saveRaw, cid, parse);
      assert StepFacts(states[n - 1], states[n], items[n - 1], fechaCorte, saveRaw, cid, parse);
      var a, b := states[n - 1], states[n];
      LinksStep(states[0].citems, a.citems, b.citems, cid, |states[0].hist|, |a.hist|, |b.hist|, |b.hist| != |a.hist|);
    }
  }

  lemma {:induction false} ChainValid(states: seq<Db>, items: seq<Normalize.Item>, n: nat, fechaCorte: string, saveRaw: bool, cid: nat, parse: string -> Option<real>)
    requires Chain(states, items, fechaCorte, saveRaw, cid, parse) && n <= |items|
    requires ValidDb(states[0]) && 1 <= cid <= |states[0].consultas|
    ensures ValidDb(states[n])
  {
    if n > 0 {
      ChainValid(states, items, n - 1, fechaCorte, saveRaw, cid, parse);
      ChainRaws(states, items, n - 1, fechaCorte, saveRaw, cid, parse);
      assert StepFacts(states[n - 1], states[n], items[n - 1], fechaCorte, saveRaw, cid, parse);
    }
  }

  /** What the chain writes from its first state to its last. */
  lemma ChainTables(states: seq<Db>, items: seq<Normalize.Item>, fechaCorte: string, saveRaw: bool, cid: nat, parse: string -> Option<real>)
    requires Chain(states, items, fechaCorte, saveRaw, cid, parse)
    ensures var db, r := states[0], states[|items|];
      && r.raws == db.raws + (if saveRaw then RawsOf(items) else [])
      && r.consultas == db.consultas
      && |db.snapshots| <= |r.snapshots| && r.snapshots[..|db.snapshots|] == db.snapshots
      && |r.snapshots| - |db.snapshots| == CountKept(parse, items)
      && OfRun(r.snapshots[|db.snapshots|..], cid, fechaCorte)
      && |db.hist| <= |r.hist|
      && r.citems == db.citems + Links(cid, |db.hist|, |r.hist| - |db.hist|)
  {
    ChainRaws(states, items, |items|, fechaCorte, saveRaw, cid, parse);
    ChainSnapshots(states, items, |items|, fechaCorte, saveRaw, cid, parse);
    ChainLinks(states, items, |items|, fechaCorte, saveRaw, cid, parse);
    assert items[..|items|] == items;
  }

  /** A run writes the raw rows of its items, in order, when the capture is on, and no run record. */
  lemma RunRaws(db: Db, items: seq<Normalize.Item>, fechaCorte: string, saveRaw: bool, cid: nat, parse: string -> Option<real>)
    ensures var r := RunFold(db, items, fechaCorte, saveRaw, cid, parse);
      && r.raws == db.raws + (if saveRaw then RawsOf(items) else [])
      && r.consultas == db.consultas
  {
    var states := RunChain(db, items, fechaCorte, saveRaw, cid, parse);
    ChainTables(states, items, fechaCorte, saveRaw, cid, parse);
  }

  /** After the existing snapshots, a run adds one snapshot of its own per stored item. */
  lemma RunSnapshots(db: Db, items: seq<Normalize.Item>, fechaCorte: string, saveRaw: bool, cid: nat, parse: string -> Option<real>)
    ensures var r := RunFold(db, items, fechaCorte, saveRaw, cid, parse);
      && |db.snapshots| <= |r.snapshots| && r.snapshots[..|db.snapshots|] == db.snapshots
      && |r.snapshots| - |db.snapshots| == CountKept(parse, items)
      && OfRun(r.snapshots[|db.snapshots|..], cid, fechaCorte)
  {
    var states := RunChain(db, items, fechaCorte, saveRaw, cid, parse);
    ChainTables(states, items, fechaCorte, saveRaw, cid, parse);
  }

  /** Every period a run opens is linked to the run, in order, and nothing else is linked. */
  lemma RunLinks(db: Db, items: seq<Normalize.Item>, fechaCorte: string, saveRaw: bool, cid: nat, parse: string -> Option<real>)
    ensures var r := RunFold(db, items, fechaCorte, saveRaw, cid, parse);
      && |db.hist| <= |r.hist|
      && r.citems == db.citems + Links(cid, |db.hist|, |r.hist| - |db.hist|)
  {
    var states := RunChain(db, items, fechaCorte, saveRaw, cid, parse);
    ChainTables(states, items, fechaCorte, saveRaw, cid, parse);
  }

  /** The whole loop keeps every constraint and leaves the run records alone. */
  lemma RunKeepsValid(db: Db, items: seq<Normalize.Item>, fechaCorte: string, saveRaw: bool, cid: nat, parse: string -> Option<real>)
    requires ValidDb(db) && 1 <= cid <= |db.consultas|
    ensures var r := RunFold(db, items, fechaCorte, saveRaw, cid, parse);
      ValidDb(r) && r.consultas == db.consultas
  {
    var states := RunChain(db, items, fechaCorte, saveRaw, cid, parse);
    ChainValid(states, items, |items|, fechaCorte, saveRaw, cid, parse);
    ChainRaws(states, items, |items|, fechaCorte, saveRaw, cid, parse);
  }

  /** The amount of d's open period, if it has one. */
  function OpenAmount(h: seq<HistRow>, d: nat): Option<real> {
    match OpenIndex(h, d)
    case None => None
    case Some(i) => Some(h[i].tarifa)
  }

  /** After a stored item, its definition's open period carries the item's amount. */
  lemma ItemStepOpensAmount(db: Db, it: Normalize.Item, fechaCorte: string, saveRaw: bool, cid: nat, parse: string -> Option<real>)
    requires Kept(parse, it)
    ensures OpenAmount(ItemStep(db, it, fechaCorte, saveRaw, cid, parse).hist, ItemDefId(db, it)) == Some(parse(it.tarifa).value)
  {
    TrackOpensAmount(db.hist, ItemDefId(db, it), parse(it.tarifa).value, Desde(it, fechaCorte));
  }

  /** An item that is not stored, or stored under another definition, leaves e's open period as it was. */
  lemma ItemStepKeepsOthers(db: Db, it: Normalize.Item, fechaCorte: string, saveRaw: bool, cid: nat, parse: string -> Option<real>, e: nat)
    requires !Kept(parse, it) || ItemDefId(db, it) != e
    ensures OpenAmount(ItemStep(db, it, fechaCorte, saveRaw, cid, parse).hist, e) == OpenAmount(db.hist, e)
  {
    if Kept(parse, it) {
      TrackOtherDefinitions(db.hist, ItemDefId(db, it), parse(it.tarifa).value, Desde(it, fechaCorte), e);
    }
  }

  /** The definition item k of a run is stored under. */
  function StepDef(db: Db, items: seq<Normalize.Item>, k: nat, fechaCorte: string, saveRaw: bool, cid: nat, parse: string -> Option<real>): nat
    requires k < |items|
  {
    ItemDefId(RunFold(db, items[..k], fechaCorte, saveRaw, cid, parse), items[k])
  }

  /** states[k] is the tables before item k and states[|items|] after the last item. */
  ghost predicate IsRun(states: seq<Db>, items: seq<Normalize.Item>, fechaCorte: string, saveRaw: bool, cid: nat, parse: string -> Option<real>) {
    && |states| == |items| + 1
    && forall k :: 0 <= k < |items| ==> states[k + 1] == ItemStep(states[k], items[k], fechaCorte, saveRaw, cid, parse)
  }

  /** Items stored under other definitions leave d's open period as item j left it. */
  lemma {:induction false} RunKeepsOpenAmount(states: seq<Db>, items: seq<Normalize.Item>, j: nat, n: nat, d: nat,
                                              fechaCorte: string, saveRaw: bool, cid: nat, parse: string -> Option<real>)
    requires IsRun(states, items, fechaCorte, saveRaw, cid, parse) && j < n <= |items|
    requires forall k :: j < k < n && Kept(parse, items[k]) ==> ItemDefId(states[k], items[k]) != d
    ensures OpenAmount(states[n].hist, d) == OpenAmount(states[j + 1].hist, d)
    decreases n
  {
    if n > j + 1 {
      RunKeepsOpenAmount(states, items, j, n - 1, d, fechaCorte, saveRaw, cid, parse);
      ItemStepKeepsOthers(states[n - 1], items[n - 1], fechaCorte, saveRaw, cid, parse, d);
    }
  }

  /** The run of the loop as its sequence of states. */
  lemma RunStates(db: Db, items: seq<Normalize.Item>, fechaCorte: string, saveRaw: bool, cid: nat, parse: string -> Option<real>)
    returns (states: seq<Db>)
    ensures IsRun(states, items, fechaCorte, saveRaw, cid, parse)
    ensures forall k :: 0 <= k <= |items| ==> states[k] == RunFold(db, items[..k], fechaCorte, saveRaw, cid, parse)
  {
    states := seq(|items| + 1, k requires 0 <= k <= |items| => RunFold(db, items[..k], fechaCorte, saveRaw, cid, parse));
    forall k | 0 <= k < |items|
      ensures states[k + 1] == ItemStep(states[k], items[k], fechaCorte, saveRaw, cid, parse)
    {
      assert items[..k + 1][..k] == items[..k];
    }
  }

  /**
   * The slowly changing history at the end of a run: a stored item whose
   * definition no later stored item shares leaves that definition with an
   * open period carrying the item's amount.
   */
  lemma RunOpensLastAmounts(db: Db, items: seq<Normalize.Item>, j: nat, fechaCorte: string, saveRaw: bool, cid: nat, parse: string -> Option<real>)
    requires j < |items| && Kept(parse, items[j])
    requires forall k :: j < k < |items| && Kept(parse, items[k]) ==>
      StepDef(db, items, k, fechaCorte, saveRaw, cid, parse) != StepDef(db, items, j, fechaCorte, saveRaw, cid, parse)
    ensures OpenAmount(RunFold(db, items, fechaCorte, saveRaw, cid, parse).hist, StepDef(db, items, j, fechaCorte, saveRaw, cid, parse))
      == Some(parse(items[j].tarifa).value)
  {
    var states := RunStates(db, items, fechaCorte, saveRaw, cid, parse);
    var d := StepDef(db, items, j, fechaCorte, saveRaw, cid, parse);
    assert d == ItemDefId(states[j], items[j]);
    ItemStepOpensAmount(states[j], items[j], fechaCorte, saveRaw, cid, parse);
    RunKeepsOpenAmount(states, items, j, |items|, d, fechaCorte, saveRaw, cid, parse);
    assert items[..|items|] == items;
  }

  /** A run record added or updated keeps every constraint: nothing else refers past the table's end. */
  lemma RunRecordsKeepValid(db: Db, cs: seq<Consulta>)
    requires ValidDb(db) && |db.consultas| <= |cs|
    ensures ValidDb(db.(consultas := cs))
  {
  }

  /** The connection, holding the tables. */
  class TariffStore {
    var vias: seq<ViaRow>
    var clases: seq<string>
    var defs: seq<DefRow>
    var hist: seq<HistRow>
    var consultas: seq<Consulta>
    var citems: seq<CItem>
    var snapshots: seq<Snapshot>
    var raws: seq<RawRow>

    function State(): Db
      reads this
    {
      Db(vias, clases, defs, hist, consultas, citems, snapshots, raws)
    }

    predicate Valid()
      reads this
    {
      ValidDb(State())
    }

    /** A fresh database: every table empty. */
    constructor ()
      ensures Valid()
      ensures State() == Db([], [], [], [], [], [], [], [])
    {
      vias, clases, defs, hist := [], [], [], [];
      consultas, citems, snapshots, raws := [], [], [], [];
    }

    /** `_upsert_via`, step by step: two lookups, then an in-place promotion or an insertion. */
    method UpsertVia(via: string, km: Option<int>) returns (id: nat)
      modifies this`vias
      ensures var u := Resolver.UpsertVia(old(vias), via, km);
        vias == u.rows && id == u.index + 1
    {
      if km.Some? {
        var row := Find(vias, ViaRow(via, km));
        if row.Some? {
          return row.value + 1;
        }
        row := Find(vias, ViaRow(via, None));
        if row.Some? {
          vias := vias[row.value := ViaRow(via, km)];
          return row.value + 1;
        }
        vias := vias + [ViaRow(via, km)];
        return |vias|;
      } else {
        var row := Find(vias, ViaRow(via, None));
        if row.Some? {
          return row.value + 1;
        }
        vias := vias + [ViaRow(via, None)];
        row := Find(vias, ViaRow(via, None));
        return row.value + 1;
      }
    }

    /** `_upsert_clase`: insert the name unless present, then look it up. */
    method UpsertClase(nombre: string) returns (id: nat)
      modifies this`clases
      ensures var u := Resolver.UpsertClase(old(clases), nombre);
        clases == u.rows && id == u.index + 1
    {
      var name := Strip(if nombre == "" then "SIN CLASE" else nombre);
      if name !in clases {
        clases := clases + [name];
      }
      var row := Find(clases, name);
      return row.value + 1;
    }

    /** `_upsert_def`: look the definition up, NULL axles matching NULL, and insert it when missing. */
    method UpsertDef(viaId: nat, claseId: nat, ejes: Option<int>) returns (id: nat)
      modifies this`defs
      ensures var u := Resolver.UpsertDef(old(defs), viaId, claseId, ejes);
        defs == u.rows && id == u.index + 1
    {
      var row := Find(defs, DefRow(viaId, claseId, ejes));
      if row.Some? {
        return row.value + 1;
      }
      defs := defs + [DefRow(viaId, claseId, ejes)];
      return |defs|;
    }

    /** `_hist_vigente`: the id and amount of the definition's open period with the highest id. */
    function HistVigente(defId: nat): (r: Option<(nat, real)>)
      reads this
      ensures r.Some? ==> 1 <= r.value.0 <= |hist| && IsOpen(hist, defId, r.value.0 - 1)
      ensures r.Some? ==> r.value.1 == hist[r.value.0 - 1].tarifa
      ensures r.Some? ==> forall j :: r.value.0 <= j < |hist| ==> !IsOpen(hist, defId, j)
      ensures r.None? <==> forall j :: 0 <= j < |hist| ==> !IsOpen(hist, defId, j)
    {
      match OpenIndex(hist, defId)
      case None => None
      case Some(i) => Some((i + 1, hist[i].tarifa))
    }

    /** `_close_hist`: end a period. */
    method CloseHist(histId: nat, hasta: string)
      requires 1 <= histId <= |hist|
      modifies this`hist
      ensures hist == old(hist)[histId - 1 := old(hist)[histId - 1].(hasta := Some(hasta))]
    {
      hist := hist[histId - 1 := hist[histId - 1].(hasta := Some(hasta))];
    }

    /** `_insert_hist`: open a period. */
    method InsertHist(defId: nat, tarifa: real, desde: string) returns (id: nat)
      modifies this`hist
      ensures hist == old(hist) + [Entry(defId, tarifa, desde)] && id == |hist|
    {
      hist := hist + [Entry(defId, tarifa, desde)];
      id := |hist|;
    }

    /** `_begin_consulta`: a run record in status RUNNING; the clock reading is a parameter. */
    method BeginConsulta(executedAt: string, fechaCorte: string) returns (id: nat)
      modifies this`consultas
      ensures consultas == old(consultas) + [Consulta(executedAt, fechaCorte, Running)]
      ensures id == |consultas|
    {
      consultas := consultas + [Consulta(executedAt, fechaCorte, Running)];
      id := |consultas|;
    }

    /** `_end_consulta`: set a run's status. */
    method EndConsulta(cid: nat, status: RunStatus)
      requires 1 <= cid <= |consultas|
      modifies this`consultas
      ensures consultas == old(consultas)[cid - 1 := old(consultas)[cid - 1].(status := status)]
    {
      consultas := consultas[cid - 1 := consultas[cid - 1].(status := status)];
    }

    /** `_append_citem`: record that a run wrote a history row. */
    method AppendCItem(cid: nat, hid: nat)
      modifies this`citems
      ensures citems == old(citems) + [CItem(cid, hid)]
    {
      citems := citems + [CItem(cid, hid)];
    }

    /** `_insert_snapshot_def`: what a run saw for a definition. */
    method InsertSnapshotDef(defId: nat, cid: nat, fechaCorte: string, desde: string, tarifa: real)
      modifies this`snapshots
      ensures snapshots == old(snapshots) + [Snapshot(defId, cid, fechaCorte, desde, tarifa, Fuente)]
    {
      snapshots := snapshots + [Snapshot(defId, cid, fechaCorte, desde, tarifa, Fuente)];
    }

    /** The three lookups of an item with a road and an amount: the definition it belongs to. */
    method Resolve(via: string, km: Option<int>, clase: string, ejes: Option<int>) returns (defId: nat)
      modifies this`vias, this`clases, this`defs
      ensures State() == Resolved(old(State()), via, km, clase, ejes)
      ensures defId == DefIdOf(old(State()), via, km, clase, ejes) && 1 <= defId <= |defs|
      ensures old(Valid()) ==> Valid()
    {
      ghost var db0 := State();
      var viaId := UpsertVia(via, km);
      var claseId := UpsertClase(clase);
      defId := UpsertDef(viaId, claseId, ejes);
      ResolveStep(db0, State(), via, km, clase, ejes, viaId, claseId, defId);
    }

    /**
     * The snapshot and the history step for a resolved item: open a period
     * when there is none, close the open one and open another when the amount
     * changed, and link every new period to the run.
     */
    method Record(defId: nat, amount: real, desde: string, fechaCorte: string, cid: nat) returns (nuevo: bool)
      modifies this`snapshots, this`hist, this`citems
      ensures nuevo == Adds(old(hist), defId, amount)
      ensures snapshots == old(snapshots) + [Snapshot(defId, cid, fechaCorte, desde, amount, Fuente)]
      ensures hist == Track(old(hist), defId, amount, desde)
      ensures citems == old(citems) + (if nuevo then [CItem(cid, |hist|)] else [])
      ensures |hist| == |old(hist)| + (if nuevo then 1 else 0)
      ensures State() == Recorded(old(State()), defId, amount, desde, fechaCorte, cid)
      ensures old(Valid()) && 1 <= defId <= |defs| && 1 <= cid <= |consultas| ==> Valid()
    {
      ghost var db0 := State();
      TrackChanges(hist, defId, amount, desde);
      InsertSnapshotDef(defId, cid, fechaCorte, desde, amount);
      var h := HistVigente(defId);
      if h.None? {
        var hid := InsertHist(defId, amount, desde);
        AppendCItem(cid, hid);
        nuevo := true;
      } else if h.value.1 != amount {
        CloseHist(h.value.0, desde);
        var hid := InsertHist(defId, amount, desde);
        AppendCItem(cid, hid);
        nuevo := true;
      } else {
        nuevo := false;
      }
      assert State() == Recorded(db0, defId, amount, desde, fechaCorte, cid);
      if ValidDb(db0) && 1 <= defId <= |db0.defs| && 1 <= cid <= |db0.consultas| {
        RecordKeepsValid(db0, defId, amount, desde, fechaCorte, cid);
      }
    }

    /**
     * An item with a road and an amount: the road, class and definition it
     * resolves to, a snapshot, and the history step, with a run link for a
     * new period.
     */
    method PersistKept(via: string, km: Option<int>, clase: string, ejes: Option<int>, amount: real, desde: string, fechaCorte: string, cid: nat)
      returns (nuevo: bool)
      modifies this`vias, this`clases, this`defs, this`snapshots, this`hist, this`citems
      ensures State() == Recorded(Resolved(old(State()), via, km, clase, ejes), DefIdOf(old(State()), via, km, clase, ejes), amount, desde, fechaCorte, cid)
      ensures nuevo == Adds(old(hist), DefIdOf(old(State()), via, km, clase, ejes), amount)
      ensures |hist| == |old(hist)| + (if nuevo then 1 else 0)
      ensures old(Valid()) && 1 <= cid <= |consultas| ==> Valid()
    {
      var defId := Resolve(via, km, clase, ejes);
      nuevo := Record(defId, amount, desde, fechaCorte, cid);
    }

    /**
     * The body of the loop of `persist_items_normalizados` for one item: the
     * raw row; then, when the road is not blank and the amount parses, what
     * `PersistKept` does, which adds one snapshot of this run and at most one
     * period, linked to the run; otherwise nothing more.
     */
    method PersistItem(it: Normalize.Item, fechaCorte: string, saveRaw: bool, cid: nat, parse: string -> Option<real>) returns (nuevo: bool)
      modifies this`raws, this`vias, this`clases, this`defs, this`snapshots, this`hist, this`citems
      ensures State() == ItemStep(old(State()), it, fechaCorte, saveRaw, cid, parse)
      ensures nuevo == Opens(old(State()), it, parse)
      ensures old(Valid()) && 1 <= cid <= |consultas| ==> Valid()
    {
      ghost var db0 := State();
      if saveRaw {
        raws := raws + [RawOf(it)];
      }
      assert State() == WithRaw(db0, it, saveRaw);
      var via := Strip(it.via);
      var tarifaVal := parse(it.tarifa);
      if via == "" || tarifaVal.None? {
        ItemStepSkips(db0, it, fechaCorte, saveRaw, cid, parse);
        nuevo := false;
      } else {
        ItemStepStores(db0, it, fechaCorte, saveRaw, cid, parse);
        nuevo := PersistKept(via, it.longKm, Strip(it.clase), it.ejes, tarifaVal.value, Desde(it, fechaCorte), fechaCorte, cid);
      }
      if ValidDb(db0) && 1 <= cid <= |db0.consultas| {
        ItemStepKeepsValid(db0, it, fechaCorte, saveRaw, cid, parse);
      }
    }

    /**
     * The loop of `persist_items_normalizados` over its first n items, for run
     * cid: the raw rows, one snapshot per stored item, and the run links of
     * the new periods, in order.
     */
    method PersistAll(items: seq<Normalize.Item>, n: nat, fechaCorte: string, saveRaw: bool, cid: nat, parse: string -> Option<real>) returns (nuevos: nat)
      requires n <= |items|
      modifies this`raws, this`vias, this`clases, this`defs, this`snapshots, this`hist, this`citems
      ensures State() == RunFold(old(State()), items[..n], fechaCorte, saveRaw, cid, parse)
      ensures |hist| == |old(hist)| + nuevos
      ensures raws == old(raws) + (if saveRaw then RawsOf(items[..n]) else [])
      ensures |old(snapshots)| <= |snapshots| && snapshots[..|old(snapshots)|] == old(snapshots)
      ensures |snapshots| - |old(snapshots)| == CountKept(parse, items[..n])
      ensures OfRun(snapshots[|old(snapshots)|..], cid, fechaCorte)
      ensures citems == old(citems) + Links(cid, |old(hist)|, nuevos)
      ensures old(Valid()) && 1 <= cid <= |consultas| ==> Valid()
    {
      ghost var db0 := State();
      nuevos := 0;
      for i := 0 to n
        invariant State() == RunFold(db0, items[..i], fechaCorte, saveRaw, cid, parse)
        invariant |hist| == |db0.hist| + nuevos
      {
        ghost var prev := State();
        var nuevo := PersistItem(items[i], fechaCorte, saveRaw, cid, parse);
        ItemStepTables(prev, items[i], fechaCorte, saveRaw, cid, parse);
        assert items[..i + 1][..i] == items[..i];
        if nuevo {
          nuevos := nuevos + 1;
        }
      }
      RunRaws(db0, items[..n], fechaCorte, saveRaw, cid, parse);
      RunSnapshots(db0, items[..n], fechaCorte, saveRaw, cid, parse);
      RunLinks(db0, items[..n], fechaCorte, saveRaw, cid, parse);
      if ValidDb(db0) && 1 <= cid <= |db0.consultas| {
        RunKeepsValid(db0, items[..n], fechaCorte, saveRaw, cid, parse);
      }
    }

    /**
     * `persist_items_normalizados`: one run record, then every item in order;
     * the run ends "OK" with the number of new history periods, or, when the
     * store fails at an item, with "ERROR: " and the message, which is raised
     * again; what was written before the failure stays.
     */
    method PersistItems(items: seq<Normalize.Item>, fechaCorte: string, saveRaw: bool, executedAt: string, fault: Option<Fault>, parse: string -> Option<real>)
      returns (r: Result<nat, string>)
      modifies this`raws, this`vias, this`clases, this`defs, this`snapshots, this`hist, this`citems, this`consultas
      ensures var n := Processed(items, fault);
        var cid := |consultas|;
        && consultas == old(consultas) + [Consulta(executedAt, fechaCorte, if Fails(items, fault) then Error(fault.value.message) else Ok)]
        && raws == old(raws) + (if saveRaw then RawsOf(items[..n]) else [])
        && |old(snapshots)| <= |snapshots| && snapshots[..|old(snapshots)|] == old(snapshots)
        && |snapshots| - |old(snapshots)| == CountKept(parse, items[..n])
        && OfRun(snapshots[|old(snapshots)|..], cid, fechaCorte)
        && |old(hist)| <= |hist|
        && citems == old(citems) + Links(cid, |old(hist)|, |hist| - |old(hist)|)
      ensures Fails(items, fault) ==> r == Failure(fault.value.message)
      ensures !Fails(items, fault) ==> r == Success(|hist| - |old(hist)|)
      ensures var begun := old(State()).(consultas := old(consultas) + [Consulta(executedAt, fechaCorte, Running)]);
        State() == RunFold(begun, items[..Processed(items, fault)], fechaCorte, saveRaw, |consultas|, parse).(consultas := consultas)
      ensures old(Valid()) ==> Valid()
    {
      ghost var valid0 := Valid();
      var cid := BeginConsulta(executedAt, fechaCorte);
      if valid0 {
        RunRecordsKeepValid(old(State()), consultas);
      }
      var n := if fault.Some? && fault.value.at < |items| then fault.value.at else |items|;
      var nuevos := PersistAll(items, n, fechaCorte, saveRaw, cid, parse);
      ghost var ran := State();
      var status := if n < |items| then Error(fault.value.message) else Ok;
      EndConsulta(cid, status);
      if valid0 {
        RunRecordsKeepValid(ran, consultas);
      }
      if n < |items| {
        return Failure(fault.value.message);
      }
      return Success(nuevos);
    }
  }
}
