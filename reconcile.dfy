/**
 * Reconciling the tree registry with the maintenance log: the left join on
 * `id_arbol`, the health-status counts, the share of trees that need
 * maintenance and its donut chart, the placeholder row for tree 7190 and
 * the maintenance ids that the registry lacks.
 */
module Reconcile {
  import opened Wrappers
  import opened Tables
  import opened Tally
  import opened Records

  /** The join key `on='id_arbol'`. */
  predicate SameTree(t: Tree, m: Maintenance) {
    t.id == m.treeId
  }

  /** A row of the merged table: the tree's columns, and the maintenance columns when a record matched. */
  type JoinedRow = (Tree, Option<Maintenance>)

  /**
   * `pd.merge(registro, mantenimiento, on='id_arbol', how='left')`: every
   * tree once per matching maintenance record, or once with empty
   * maintenance columns when none matches.
   */
  function Joined(trees: seq<Tree>, maintenance: seq<Maintenance>): (rows: seq<JoinedRow>)
    ensures |rows| == JoinSize(trees, maintenance, SameTree) && |rows| >= |trees|
    ensures forall row :: row in rows ==> row.0 in trees
    ensures forall t :: t in trees ==> exists row :: row in rows && row.0 == t
    ensures forall row :: row in rows && row.1.Some? ==> row.1.value in maintenance && row.1.value.treeId == row.0.id
    ensures forall row :: row in rows && row.1.None? ==> forall m :: m in maintenance ==> m.treeId != row.0.id
    ensures forall t, m :: t in trees && m in maintenance && t.id == m.treeId ==> (t, Some(m)) in rows
  {
    var rows := LeftJoin(trees, maintenance, SameTree);
    assert forall t, m :: t in trees && m in maintenance && t.id == m.treeId ==> (t, Some(m)) in rows by {
      forall t, m | t in trees && m in maintenance && t.id == m.treeId ensures (t, Some(m)) in rows {
        assert SameTree(t, m);
      }
    }
    rows
  }

  /** Each tree contributes its own rows, in registry order: once per matching record, in log order. */
  lemma JoinedRowByRow(a: seq<Tree>, b: seq<Tree>, t: Tree, maintenance: seq<Maintenance>)
    ensures Joined(a + b, maintenance) == Joined(a, maintenance) + Joined(b, maintenance)
    ensures Joined([t], maintenance) == JoinRow(t, maintenance, SameTree)
  {
    LeftJoinAppend(a, b, maintenance, SameTree);
    LeftJoinSingle(t, maintenance, SameTree);
  }

  /** The merge is empty exactly when the registry is. */
  lemma JoinedEmpty(trees: seq<Tree>, maintenance: seq<Maintenance>)
    ensures Joined(trees, maintenance) == [] <==> trees == []
  {
    if trees != [] {
      assert |Joined(trees, maintenance)| >= |trees|;
    }
  }

  /** `estado_salud` of a merged row: missing when no record matched or the record has none. */
  function Health(row: JoinedRow): (h: Option<string>)
    ensures h.Some? ==> row.1.Some? && row.1.value.health == h
  {
    if row.1.Some? then row.1.value.health else None
  }

  function HealthColumn(rows: seq<JoinedRow>): (col: seq<Option<string>>)
    ensures |col| == |rows|
    ensures forall i :: 0 <= i < |rows| ==> col[i] == Health(rows[i])
  {
    seq(|rows|, i requires 0 <= i < |rows| => Health(rows[i]))
  }

  /** `arboles_mantenimiento_df['estado_salud'].value_counts()` */
  function StatusCounts(trees: seq<Tree>, maintenance: seq<Maintenance>): (vc: seq<Counted<string>>)
    ensures IsValueCounts(HealthColumn(Joined(trees, maintenance)), vc)
  {
    ValueCounts(HealthColumn(Joined(trees, maintenance)))
  }

  /** The counts leave out the rows with no status and add up to all the others. */
  lemma StatusCountsTotal(trees: seq<Tree>, maintenance: seq<Maintenance>)
    ensures SumCounts(StatusCounts(trees, maintenance)) == NonNull(HealthColumn(Joined(trees, maintenance)))
  {
    ValueCountsTotal(HealthColumn(Joined(trees, maintenance)), StatusCounts(trees, maintenance));
  }

  /** `isin(['Malo', 'Regular'])`; a missing status is in neither. */
  predicate NeedsCare(h: Option<string>) {
    h == Some("Malo") || h == Some("Regular")
  }

  /** Every row that needs care is either "Malo" or "Regular", and is counted once. */
  lemma {:induction false} CareSplit(col: seq<Option<string>>)
    ensures CountWhere(col, NeedsCare) == Occurrences(col, "Malo") + Occurrences(col, "Regular")
  {
    if col != [] {
      CareSplit(col[1..]);
    }
  }

  /**
   * `calcular_porcentaje_mal_estado`: the rows needing care as a
   * percentage of all merged rows, those without a status included;
   * `None` for an empty registry, where the division raises.
   */
  function MaintenancePercentage(trees: seq<Tree>, maintenance: seq<Maintenance>): (r: Option<real>)
    ensures r.None? <==> trees == []
    ensures r.Some? ==> 0.0 <= r.value <= 100.0
    ensures r.Some? ==>
      var col := HealthColumn(Joined(trees, maintenance));
      IsPercentage(r.value, CountWhere(col, NeedsCare), |col|)
  {
    var col := HealthColumn(Joined(trees, maintenance));
    JoinedEmpty(trees, maintenance);
    if |col| == 0 then None else Some(Percentage(CountWhere(col, NeedsCare), |col|))
  }

  /**
   * The donut chart's three slices: "Malo", "Regular", and every other
   * row, those without a status included. The first two together are the
   * rows `MaintenancePercentage` counts, and the three together all rows.
   */
  function DonutSlices(col: seq<Option<string>>): (r: (nat, nat, nat))
    ensures r.0 == Occurrences(col, "Malo") && r.1 == Occurrences(col, "Regular")
    ensures r.0 + r.1 == CountWhere(col, NeedsCare)
    ensures r.0 + r.1 + r.2 == |col|
  {
    CareSplit(col);
    (Occurrences(col, "Malo"), Occurrences(col, "Regular"), |col| - CountWhere(col, NeedsCare))
  }

  // ---------------------------------------------------------------------
  // The placeholder tree

  const PlaceholderId: int := 7190
  const NoInformation: string := "Sin información"

  /**
   * The row `nuevo_arbol`: the text columns "Sin información", active, and
   * nothing in the columns whose values were all `None` (dropped before the
   * concatenation, hence missing after it).
   */
  function Placeholder(): (t: Tree)
    ensures t.id == PlaceholderId && t.active == Some(true)
    ensures t.lat.Null? && t.lng.Null? && t.treeSpacing.Null? && t.wallDistance.Null?
    ensures t.address == t.sidewalkType == t.sidewalkSide == t.species == t.wiring == Str(NoInformation)
  {
    Tree(PlaceholderId, Str(NoInformation), Str(NoInformation), Str(NoInformation), Str(NoInformation),
      Str(NoInformation), Null, Null, Some(true), Null, Null)
  }

  /** `pd.concat([registro, nuevo_arbol], ignore_index=True)` */
  function Updated(trees: seq<Tree>): (r: seq<Tree>)
    ensures |r| == |trees| + 1
    ensures r[..|trees|] == trees
    ensures r[|trees|] == Placeholder()
  {
    trees + [Placeholder()]
  }

  predicate IsPlaceholderId(t: Tree) {
    t.id == PlaceholderId
  }

  /** The row is added with no check: every update adds one more row with id 7190. */
  lemma UpdatedAddsOne(trees: seq<Tree>)
    ensures CountWhere(Updated(trees), IsPlaceholderId) == CountWhere(trees, IsPlaceholderId) + 1
  {
    CountWhereAppend(trees, [Placeholder()], IsPlaceholderId);
  }

  lemma {:induction false} CountWhereAppend<T>(a: seq<T>, b: seq<T>, p: T -> bool)
    ensures CountWhere(a + b, p) == CountWhere(a, p) + CountWhere(b, p)
  {
    if a != [] {
      CountWhereAppend(a[1..], b, p);
      assert (a + b)[1..] == a[1..] + b;
    } else {
      assert a + b == b;
    }
  }

  /** `set(df['id_arbol'])` */
  function Ids(trees: seq<Tree>): (ids: set<int>)
    ensures forall id :: id in ids <==> exists t :: t in trees && t.id == id
  {
    set t | t in trees :: t.id
  }

  /** `nunique()` grows by one only when the registry had no tree 7190 before. */
  lemma UpdatedDistinctIds(trees: seq<Tree>)
    ensures Ids(Updated(trees)) == Ids(trees) + {PlaceholderId}
    ensures |Ids(Updated(trees))| == |Ids(trees)| + (if PlaceholderId in Ids(trees) then 0 else 1)
  {
    var u := Updated(trees);
    assert forall t :: t in u <==> t in trees || t == Placeholder();
  }

  /** The maintenance ids the registry does not have. */
  function MissingIds(trees: seq<Tree>, maintenance: seq<Maintenance>): (missing: set<int>)
    ensures forall id :: id in missing <==>
      (exists m :: m in maintenance && m.treeId == id) && forall t :: t in trees ==> t.id != id
    ensures missing == {} <==> forall m :: m in maintenance ==> exists t :: t in trees && t.id == m.treeId
  {
    var missing := (set m | m in maintenance :: m.treeId) - Ids(trees);
    assert missing == {} <==> forall m :: m in maintenance ==> exists t :: t in trees && t.id == m.treeId by {
      if missing == {} {
        forall m | m in maintenance ensures exists t :: t in trees && t.id == m.treeId {
          assert m.treeId !in missing;
        }
      } else {
        var id :| id in missing;
      }
    }
    missing
  }

  /** After the update, tree 7190 is never reported missing. */
  lemma PlaceholderNeverMissing(trees: seq<Tree>, maintenance: seq<Maintenance>)
    ensures PlaceholderId !in MissingIds(Updated(trees), maintenance)
  {
    assert Updated(trees)[|trees|].id == PlaceholderId;
  }

  // ---------------------------------------------------------------------
  // The cleaned merge

  /** `dropna(subset=['lat', 'lng', 'estado_salud'])` keeps a row when none of the three is missing. */
  predicate Complete(row: JoinedRow) {
    Located(row.0) && Health(row).Some?
  }

  function CompleteRows(rows: seq<JoinedRow>): (r: seq<JoinedRow>)
    ensures forall row :: row in r <==> row in rows && Complete(row)
    ensures |r| == CountWhere(rows, Complete)
    ensures Subsequence(r, rows)
  {
    FilterSubsequence(rows, Complete);
    Filter(rows, Complete)
  }

  /** Every row kept by the cleaning matched a maintenance record of its own tree. */
  lemma CompleteRowsMatched(trees: seq<Tree>, maintenance: seq<Maintenance>)
    ensures forall row :: row in CompleteRows(Joined(trees, maintenance)) ==>
      row.1.Some? && row.1.value in maintenance && row.1.value.treeId == row.0.id && row.1.value.health.Some?
  {
  }
}
