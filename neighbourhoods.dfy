/**
 * Counts per neighbourhood. The spaces-and-trees script counts the trees
 * the spatial join placed in each neighbourhood (by name) and the green
 * spaces that carry each neighbourhood's id, merging both counts onto the
 * neighbourhood table and filling every gap with 0. The dashboard counts
 * the green spaces per neighbourhood id and turns the counts into
 * percentage shares.
 */
module Neighbourhoods {
  import opened Wrappers
  import opened Tables
  import opened Tally
  import opened Records

  /** A group-by key: a missing value is no key at all, because `groupby` drops it. */
  function KeyOf(c: Cell): Option<Cell> {
    if c.Null? then None else Some(c)
  }

  function KeyColumn(cells: seq<Cell>): (col: seq<Option<Cell>>)
    ensures |col| == |cells|
    ensures forall i :: 0 <= i < |cells| ==> col[i] == KeyOf(cells[i])
  {
    seq(|cells|, i requires 0 <= i < |cells| => KeyOf(cells[i]))
  }

  /**
   * `groupby(column).size()` merged onto a row by `key` and filled with 0:
   * how many cells of the column hold the key; 0 for a missing key, which
   * matches no group.
   */
  function CountFor(cells: seq<Cell>, key: Cell): (n: nat)
    ensures n == Occurrences(KeyColumn(cells), key)
    ensures key.Null? ==> n == 0
  {
    GroupSizeLookup(KeyColumn(cells), key);
    assert key.Null? ==> Some(key) !in KeyColumn(cells);
    SizeOf(GroupSizes(KeyColumn(cells)), KeyOf(key)).GetOr(0)
  }

  /** `fillna(0)` on every cell of a neighbourhood row. */
  function Filled(h: Neighbourhood): (r: Neighbourhood)
    ensures NoMissing(r)
    ensures !h.id.Null? ==> r.id == h.id
    ensures !h.name.Null? ==> r.name == h.name
    ensures |r.details| == |h.details|
    ensures forall i :: 0 <= i < |h.details| && !h.details[i].Null? ==> r.details[i] == h.details[i]
  {
    Neighbourhood(FillZero(h.id), FillZero(h.name),
      seq(|h.details|, i requires 0 <= i < |h.details| => FillZero(h.details[i])))
  }

  predicate NoMissing(h: Neighbourhood) {
    !h.id.Null? && !h.name.Null? && forall c :: c in h.details ==> !c.Null?
  }

  /** `espacios_verdes_df['id_barrios']` */
  function SpaceIds(spaces: seq<GreenSpace>): (ids: seq<Cell>)
    ensures |ids| == |spaces|
    ensures forall i :: 0 <= i < |spaces| ==> ids[i] == spaces[i].neighbourhoodId
  {
    seq(|spaces|, i requires 0 <= i < |spaces| => spaces[i].neighbourhoodId)
  }

  // ---------------------------------------------------------------------
  // The spaces-and-trees script

  /** A row of the final neighbourhood table: the filled row, its tree count and its green-space count. */
  datatype HoodCounts = HoodCounts(hood: Neighbourhood, trees: nat, spaces: nat)

  /**
   * The first merge: each neighbourhood with the number of spatial-join
   * rows carrying its name, `treeHoods` being the `nombre_barrio` column
   * of the join (missing for a tree outside every neighbourhood); then
   * `fillna(0)` on the whole table.
   */
  function WithTreeCounts(hoods: seq<Neighbourhood>, treeHoods: seq<Cell>): (r: seq<(Neighbourhood, nat)>)
    ensures |r| == |hoods|
    ensures forall i :: 0 <= i < |r| ==> r[i].0 == Filled(hoods[i])
    ensures forall i :: 0 <= i < |r| ==> r[i].1 == Occurrences(KeyColumn(treeHoods), hoods[i].name)
  {
    seq(|hoods|, i requires 0 <= i < |hoods| => (Filled(hoods[i]), CountFor(treeHoods, hoods[i].name)))
  }

  /**
   * The second merge, on `id_barrios` of the already filled table, and
   * `fillna(0)` again.
   */
  function WithSpaceCounts(table: seq<(Neighbourhood, nat)>, spaces: seq<GreenSpace>): (r: seq<HoodCounts>)
    ensures |r| == |table|
    ensures forall i :: 0 <= i < |r| ==> r[i].hood == table[i].0 && r[i].trees == table[i].1
    ensures forall i :: 0 <= i < |r| ==> r[i].spaces == Occurrences(KeyColumn(SpaceIds(spaces)), table[i].0.id)
  {
    seq(|table|, i requires 0 <= i < |table| =>
      HoodCounts(table[i].0, table[i].1, CountFor(SpaceIds(spaces), table[i].0.id)))
  }

  /** `barrios_con_datos_gdf` */
  function NeighbourhoodTable(hoods: seq<Neighbourhood>, treeHoods: seq<Cell>, spaces: seq<GreenSpace>): seq<HoodCounts> {
    WithSpaceCounts(WithTreeCounts(hoods, treeHoods), spaces)
  }

  /**
   * One row per neighbourhood, in order; no missing cell anywhere; the
   * tree count is the number of join rows with the neighbourhood's name
   * (0 without a name), the green-space count the number of spaces with
   * its filled id.
   */
  lemma NeighbourhoodTableShape(hoods: seq<Neighbourhood>, treeHoods: seq<Cell>, spaces: seq<GreenSpace>)
    ensures var r := NeighbourhoodTable(hoods, treeHoods, spaces);
      |r| == |hoods|
      && (forall i :: 0 <= i < |r| ==> r[i].hood == Filled(hoods[i]) && NoMissing(r[i].hood))
      && (forall i :: 0 <= i < |r| ==> r[i].trees == Occurrences(KeyColumn(treeHoods), hoods[i].name))
      && (forall i :: 0 <= i < |r| && hoods[i].name.Null? ==> r[i].trees == 0)
      && (forall i :: 0 <= i < |r| ==> r[i].spaces == Occurrences(KeyColumn(SpaceIds(spaces)), FillZero(hoods[i].id)))
  {
    var r := NeighbourhoodTable(hoods, treeHoods, spaces);
    forall i | 0 <= i < |r| && hoods[i].name.Null? ensures r[i].trees == 0 {
      assert Some(hoods[i].name) !in KeyColumn(treeHoods);
    }
  }

  /**
   * The second merge is on the filled id: a neighbourhood without an id
   * is given the number of green spaces whose id is 0.
   */
  lemma MissingIdMatchesZero(hoods: seq<Neighbourhood>, treeHoods: seq<Cell>, spaces: seq<GreenSpace>, i: nat)
    requires i < |hoods| && hoods[i].id.Null?
    ensures NeighbourhoodTable(hoods, treeHoods, spaces)[i].spaces
      == Occurrences(KeyColumn(SpaceIds(spaces)), Num(0.0))
  {
  }

  function Names(hoods: seq<Neighbourhood>): (names: seq<Cell>)
    ensures |names| == |hoods|
    ensures forall i :: 0 <= i < |hoods| ==> names[i] == hoods[i].name
  {
    seq(|hoods|, i requires 0 <= i < |hoods| => hoods[i].name)
  }

  function FilledIds(hoods: seq<Neighbourhood>): (ids: seq<Cell>)
    ensures |ids| == |hoods|
    ensures forall i :: 0 <= i < |hoods| ==> ids[i] == FillZero(hoods[i].id)
  {
    seq(|hoods|, i requires 0 <= i < |hoods| => FillZero(hoods[i].id))
  }

  function TreeTotal(rows: seq<HoodCounts>): nat {
    if rows == [] then 0 else rows[0].trees + TreeTotal(rows[1..])
  }

  function SpaceTotal(rows: seq<HoodCounts>): nat {
    if rows == [] then 0 else rows[0].spaces + SpaceTotal(rows[1..])
  }

  lemma {:induction false} TreeTotalIsSum(rows: seq<HoodCounts>, col: seq<Option<Cell>>, keys: seq<Cell>)
    requires |rows| == |keys|
    requires forall i :: 0 <= i < |rows| ==> rows[i].trees == Occurrences(col, keys[i])
    ensures TreeTotal(rows) == SumOccurrences(col, keys)
  {
    if rows != [] {
      TreeTotalIsSum(rows[1..], col, keys[1..]);
    }
  }

  lemma {:induction false} SpaceTotalIsSum(rows: seq<HoodCounts>, col: seq<Option<Cell>>, keys: seq<Cell>)
    requires |rows| == |keys|
    requires forall i :: 0 <= i < |rows| ==> rows[i].spaces == Occurrences(col, keys[i])
    ensures SpaceTotal(rows) == SumOccurrences(col, keys)
  {
    if rows != [] {
      SpaceTotalIsSum(rows[1..], col, keys[1..]);
    }
  }

  /** With distinct keys covering every key in the column, the per-key counts add up to the non-missing cells. */
  lemma CoveredTotal(col: seq<Option<Cell>>, keys: seq<Cell>)
    requires Distinct(keys)
    requires forall k :: Some(k) in col ==> k in keys
    ensures SumOccurrences(col, keys) == NonNull(col)
  {
    SumOfOccurrences(col, keys);
    CountInCovering(col, set k | k in keys);
  }

  /**
   * With distinct neighbourhood names, and every name the spatial join
   * assigned being one of them, the tree counts add up to the join rows
   * that fell inside some neighbourhood.
   */
  lemma TreeCountsTotal(hoods: seq<Neighbourhood>, treeHoods: seq<Cell>, spaces: seq<GreenSpace>)
    requires Distinct(Names(hoods))
    requires forall c :: c in treeHoods && !c.Null? ==> exists h :: h in hoods && h.name == c
    ensures TreeTotal(NeighbourhoodTable(hoods, treeHoods, spaces)) == NonNull(KeyColumn(treeHoods))
  {
    var col := KeyColumn(treeHoods);
    var names := Names(hoods);
    NeighbourhoodTableShape(hoods, treeHoods, spaces);
    TreeTotalIsSum(NeighbourhoodTable(hoods, treeHoods, spaces), col, names);
    forall k | Some(k) in col ensures k in names {
      var j :| 0 <= j < |col| && col[j] == Some(k);
      assert treeHoods[j] in treeHoods;
      var h :| h in hoods && h.name == k;
      var i :| 0 <= i < |hoods| && hoods[i] == h;
      assert names[i] == k;
    }
    CoveredTotal(col, names);
  }

  /**
   * With distinct filled ids, and every id a green space carries being one
   * of them, the green-space counts add up to the spaces that have an id.
   */
  lemma SpaceCountsTotal(hoods: seq<Neighbourhood>, treeHoods: seq<Cell>, spaces: seq<GreenSpace>)
    requires Distinct(FilledIds(hoods))
    requires forall g :: g in spaces && !g.neighbourhoodId.Null? ==> exists h :: h in hoods && FillZero(h.id) == g.neighbourhoodId
    ensures SpaceTotal(NeighbourhoodTable(hoods, treeHoods, spaces)) == NonNull(KeyColumn(SpaceIds(spaces)))
  {
    var col := KeyColumn(SpaceIds(spaces));
    var ids := FilledIds(hoods);
    NeighbourhoodTableShape(hoods, treeHoods, spaces);
    SpaceTotalIsSum(NeighbourhoodTable(hoods, treeHoods, spaces), col, ids);
    forall k | Some(k) in col ensures k in ids {
      var j :| 0 <= j < |col| && col[j] == Some(k);
      assert spaces[j] in spaces;
      var h :| h in hoods && FillZero(h.id) == k;
      var i :| 0 <= i < |hoods| && hoods[i] == h;
      assert ids[i] == k;
    }
    CoveredTotal(col, ids);
  }

  // ---------------------------------------------------------------------
  // The dashboard's green-space shares

  function Total(counts: seq<nat>): nat {
    if counts == [] then 0 else counts[0] + Total(counts[1..])
  }

  lemma {:induction false} AtMostTotal(counts: seq<nat>, i: nat)
    requires i < |counts|
    ensures counts[i] <= Total(counts)
  {
    if i > 0 {
      AtMostTotal(counts[1..], i - 1);
    }
  }

  /** `count / total * 100`; pandas gives NaN, here `None`, when the total is 0. */
  function ShareOf(count: nat, total: nat): Option<real> {
    if total == 0 then None else Some(count as real / total as real * 100.0)
  }

  function ShareList(counts: seq<nat>, total: nat): (r: seq<Option<real>>)
    ensures |r| == |counts|
    ensures forall i :: 0 <= i < |counts| ==> r[i] == ShareOf(counts[i], total)
  {
    if counts == [] then [] else [ShareOf(counts[0], total)] + ShareList(counts[1..], total)
  }

  /** The sum of the shares that are numbers. */
  function SumShares(shares: seq<Option<real>>): real {
    if shares == [] then 0.0 else shares[0].GetOr(0.0) + SumShares(shares[1..])
  }

  lemma {:induction false} ShareListSum(counts: seq<nat>, total: nat)
    requires total > 0
    ensures SumShares(ShareList(counts, total)) * total as real == 100.0 * Total(counts) as real
  {
    if counts != [] {
      ShareListSum(counts[1..], total);
      var s := ShareList(counts, total);
      assert s[1..] == ShareList(counts[1..], total);
      assert s[0].value * total as real == 100.0 * counts[0] as real;
    }
  }

  /**
   * `barrios_con_datos['porcentaje_espacios_verdes']`: each count as a
   * percentage of the total; every share missing when the total is 0.
   */
  function Shares(counts: seq<nat>): (r: seq<Option<real>>)
    ensures |r| == |counts|
    ensures forall i :: 0 <= i < |r| ==> (r[i].None? <==> Total(counts) == 0)
    ensures forall i :: 0 <= i < |r| && r[i].Some? ==>
      0.0 <= r[i].value <= 100.0 && IsPercentage(r[i].value, counts[i], Total(counts))
  {
    var r := ShareList(counts, Total(counts));
    assert forall i :: 0 <= i < |r| && r[i].Some? ==>
      0.0 <= r[i].value <= 100.0 && IsPercentage(r[i].value, counts[i], Total(counts)) by {
      forall i | 0 <= i < |r| && r[i].Some?
        ensures 0.0 <= r[i].value <= 100.0 && IsPercentage(r[i].value, counts[i], Total(counts))
      {
        AtMostTotal(counts, i);
        assert r[i].value == Percentage(counts[i], Total(counts));
      }
    }
    r
  }

  /** When there is any green space at all, the shares add up to 100. */
  lemma SharesSum(counts: seq<nat>)
    requires Total(counts) > 0
    ensures SumShares(Shares(counts)) == 100.0
  {
    ShareListSum(counts, Total(counts));
    Cancel(SumShares(Shares(counts)), Total(counts) as real);
  }

  lemma Cancel(x: real, t: real)
    requires t > 0.0 && x * t == 100.0 * t
    ensures x == 100.0
  {
  }

  /**
   * The dashboard's merge, on the neighbourhood's own id and filled with 0:
   * the number of green spaces carrying each neighbourhood's id.
   */
  function SpaceCounts(hoods: seq<Neighbourhood>, spaces: seq<GreenSpace>): (counts: seq<nat>)
    ensures |counts| == |hoods|
    ensures forall i :: 0 <= i < |hoods| ==> counts[i] == Occurrences(KeyColumn(SpaceIds(spaces)), hoods[i].id)
    ensures forall i :: 0 <= i < |hoods| && hoods[i].id.Null? ==> counts[i] == 0
  {
    seq(|hoods|, i requires 0 <= i < |hoods| => CountFor(SpaceIds(spaces), hoods[i].id))
  }

  /** The table behind the dashboard's pie chart of green spaces per neighbourhood. */
  class SpaceChart {
    var rows: seq<Neighbourhood>
    var counts: seq<nat>
    var shares: seq<Option<real>>

    /** `barrios_df.merge(espacios_verdes_por_barrio, ..., how='left').fillna(0)` */
    constructor(hoods: seq<Neighbourhood>, spaces: seq<GreenSpace>)
      ensures |rows| == |hoods| && forall i :: 0 <= i < |hoods| ==> rows[i] == Filled(hoods[i])
      ensures counts == SpaceCounts(hoods, spaces)
      ensures shares == []
    {
      rows := seq(|hoods|, i requires 0 <= i < |hoods| => Filled(hoods[i]));
      counts := SpaceCounts(hoods, spaces);
      shares := [];
    }

    /** The new column `porcentaje_espacios_verdes`. */
    method AddShareColumn()
      modifies this
      ensures rows == old(rows) && counts == old(counts)
      ensures shares == Shares(counts)
    {
      shares := Shares(counts);
    }
  }
}
