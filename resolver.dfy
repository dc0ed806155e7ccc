// The dimension resolver: find-or-create over the `via`, `vehiculo_clase`
// and `tarifa_definicion` tables, stated on the tables' rows. Rows are never
// deleted, so the row at position k has id k + 1.

module Resolver {
  import opened Wrappers
  import opened Text

  /** A row of `via`: road name and length in km, NULL when unknown. */
  datatype ViaRow = ViaRow(via: string, longKm: Option<int>)

  /** A row of `tarifa_definicion`: road id, vehicle-class id and axle count, NULL when unknown. */
  datatype DefRow = DefRow(viaId: nat, claseId: nat, ejes: Option<int>)

  /** The outcome of a find-or-create: the table afterwards and the position of the row it resolved to. */
  datatype Upserted<T> = Upserted(rows: seq<T>, index: nat)

  /**
   * No two rows are equal. For `via` these are the constraints
   * UNIQUE(via, long_km) and the unique index on `via` where `long_km` is NULL;
   * for `tarifa_definicion`, UNIQUE(via_id, clase_id, ejes) and the unique
   * index on (via_id, clase_id) where `ejes` is NULL; for `vehiculo_clase`,
   * UNIQUE(nombre). Comparing `Option` values makes NULL equal to NULL, as
   * those partial indexes do.
   */
  predicate Unique<T(==)>(rows: seq<T>) {
    forall i, j :: 0 <= i < |rows| && 0 <= j < |rows| && rows[i] == rows[j] ==> i == j
  }

  function FindFrom<T(==)>(rows: seq<T>, x: T, i: nat): (r: Option<nat>)
    requires i <= |rows|
    ensures r.Some? ==> i <= r.value < |rows| && rows[r.value] == x && forall j :: i <= j < r.value ==> rows[j] != x
    ensures r.None? ==> forall j :: i <= j < |rows| ==> rows[j] != x
    decreases |rows| - i
  {
    if i == |rows| then None else if rows[i] == x then Some(i) else FindFrom(rows, x, i + 1)
  }

  /** A `SELECT id ... WHERE` lookup: the position of the first row equal to x, if there is one. */
  function Find<T(==)>(rows: seq<T>, x: T): (r: Option<nat>)
    ensures r.Some? ==> r.value < |rows| && rows[r.value] == x && forall j :: 0 <= j < r.value ==> rows[j] != x
    ensures r.None? <==> x !in rows
  {
    FindFrom(rows, x, 0)
  }

  /** In a table without duplicates the lookup finds the only row equal to x. */
  lemma FindUnique<T>(rows: seq<T>, x: T, k: nat)
    requires Unique(rows) && k < |rows| && rows[k] == x
    ensures Find(rows, x) == Some(k)
  {
  }

  /** `INSERT OR IGNORE` followed by `SELECT id`: the row equal to x, added at the end when missing. */
  function Insert<T(==)>(rows: seq<T>, x: T): Upserted<T> {
    match Find(rows, x)
    case Some(i) => Upserted(rows, i)
    case None => Upserted(rows + [x], |rows|)
  }

  /** The insertion resolves to a row equal to x, adds a row only when none was there, and keeps the table free of duplicates. */
  lemma InsertSpec<T>(rows: seq<T>, x: T)
    ensures var r := Insert(rows, x);
      && r.index < |r.rows| && r.rows[r.index] == x
      && (x in rows ==> r.rows == rows && r.index == Find(rows, x).value)
      && (x !in rows ==> r.rows == rows + [x] && r.index == |rows|)
      && (Unique(rows) ==> Unique(r.rows))
  {
  }

  /**
   * `_upsert_via`: with a known length, the row for (via, km) if there is
   * one; else the row for (via, NULL), promoted in place to that length and
   * keeping its id; else a new row. With an unknown length, the row for
   * (via, NULL), created when missing.
   */
  function UpsertVia(vias: seq<ViaRow>, via: string, km: Option<int>): Upserted<ViaRow> {
    match Find(vias, ViaRow(via, km))
    case Some(i) => Upserted(vias, i)
    case None =>
      if km.Some? && Find(vias, ViaRow(via, None)).Some? then
        var i := Find(vias, ViaRow(via, None)).value;
        Upserted(vias[i := ViaRow(via, km)], i)
      else
        Upserted(vias + [ViaRow(via, km)], |vias|)
  }

  /**
   * The road resolves to a row for exactly (via, km); a row is added only
   * when neither (via, km) nor, for a known length, (via, NULL) was there;
   * a promoted row keeps its position; no other row changes; and the table
   * stays free of duplicates.
   */
  lemma UpsertViaSpec(vias: seq<ViaRow>, via: string, km: Option<int>)
    ensures var r := UpsertVia(vias, via, km);
      && r.index < |r.rows| && r.rows[r.index] == ViaRow(via, km)
      && |vias| <= |r.rows| <= |vias| + 1
      && (forall i :: 0 <= i < |vias| && i != r.index ==> r.rows[i] == vias[i])
      && (ViaRow(via, km) in vias ==> r.rows == vias && r.index == Find(vias, ViaRow(via, km)).value)
      && (ViaRow(via, km) !in vias && km.Some? && ViaRow(via, None) in vias ==>
            |r.rows| == |vias| && r.index == Find(vias, ViaRow(via, None)).value)
      && (|r.rows| == |vias| + 1 <==> ViaRow(via, km) !in vias && (km.None? || ViaRow(via, None) !in vias))
      && (Unique(vias) ==> Unique(r.rows))
  {
  }

  /** Resolving a road twice with the same length gives the same row and changes nothing the second time. */
  lemma UpsertViaIdempotent(vias: seq<ViaRow>, via: string, km: Option<int>)
    ensures var r := UpsertVia(vias, via, km);
      Unique(r.rows) ==> UpsertVia(r.rows, via, km) == r
  {
    var r := UpsertVia(vias, via, km);
    UpsertViaSpec(vias, via, km);
    if Unique(r.rows) {
      FindUnique(r.rows, ViaRow(via, km), r.index);
    }
  }

  /** The name `_upsert_clase` stores: the stripped name, "SIN CLASE" when it is empty. */
  function ClaseName(nombre: string): string {
    Strip(if nombre == "" then "SIN CLASE" else nombre)
  }

  /** On an already stripped name, a blank name becomes "SIN CLASE" and any other is kept; never the empty name. */
  lemma ClaseNameOfStripped(x: string)
    ensures ClaseName(Strip(x)) == if Strip(x) == "" then "SIN CLASE" else Strip(x)
    ensures ClaseName(Strip(x)) != ""
  {
    StripIdempotent(x);
    var s := "SIN CLASE";
    assert SkipSpaces(s, 0) == 0;
    assert SkipSpacesBack(s, 0, |s|) == |s|;
  }

  /** `_upsert_clase`: the vehicle class with that name, created when missing. */
  function UpsertClase(clases: seq<string>, nombre: string): Upserted<string> {
    Insert(clases, ClaseName(nombre))
  }

  /** `_upsert_def`: the definition for (road, class, axles), NULL axles matching NULL, created when missing. */
  function UpsertDef(defs: seq<DefRow>, viaId: nat, claseId: nat, ejes: Option<int>): Upserted<DefRow> {
    Insert(defs, DefRow(viaId, claseId, ejes))
  }

  /** Two definitions that differ only in NULL against a known axle count are different rows. */
  lemma UpsertDefNullIsItsOwnRow(defs: seq<DefRow>, viaId: nat, claseId: nat, n: int)
    requires Unique(defs)
    ensures var a := UpsertDef(defs, viaId, claseId, None);
      var b := UpsertDef(a.rows, viaId, claseId, Some(n));
      b.index != a.index && b.rows[a.index] == DefRow(viaId, claseId, None)
  {
    var a := UpsertDef(defs, viaId, claseId, None);
    InsertSpec(defs, DefRow(viaId, claseId, None));
    InsertSpec(a.rows, DefRow(viaId, claseId, Some(n)));
  }
}
