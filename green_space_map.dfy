/**
 * Drawing the green spaces on the map. Each row's geometry text is repaired
 * and decoded, and the first ring of its coordinates becomes a polygon with
 * latitude first. A row that fails at any step is counted as problematic
 * instead. Also the classification filter of the dashboard.
 */
module GreenSpaceMap {
  import opened Wrappers
  import opened Tables
  import opened Records
  import GeometryText

  /** A value `json.loads` returns. */
  datatype Json =
    | JNull
    | JBool(b: bool)
    | JNum(n: real)
    | JStr(s: string)
    | JArr(items: seq<Json>)
    | JObj(members: seq<(string, Json)>)

  /** The two scripts that draw the green spaces repair the geometry text differently. */
  datatype Script = DataAnalysis | SpacesAndTrees

  function Repair(script: Script, text: string): string {
    match script
    case DataAnalysis => GeometryText.RepairBeforeDecode(text)
    case SpacesAndTrees => GeometryText.RepairSinglePass(text)
  }

  /**
   * `cargar_json`: the repaired text given to the decoder `decode`, whose
   * `None` is a JSONDecodeError.
   */
  function LoadGeometry(script: Script, text: string, decode: string -> Option<Json>): Option<Json> {
    decode(Repair(script, text))
  }

  /** Text that is already valid for the decoder reaches it unchanged, in both scripts. */
  lemma LoadWellFormed(script: Script, text: string, decode: string -> Option<Json>)
    requires GeometryText.NoDoubledQuote(text)
    requires GeometryText.NoBareKey(text, GeometryText.LookbehindOpeners)
    ensures LoadGeometry(script, text, decode) == decode(text)
  {
    GeometryText.RepairUnchanged(text);
  }

  /** `obj[key]` on a decoded object: the last member with that key, the one `json.loads` keeps. */
  function Member(members: seq<(string, Json)>, key: string): (r: Option<Json>)
    ensures r.Some? ==> (key, r.value) in members
    ensures r.Some? ==> exists i :: (0 <= i < |members| && members[i] == (key, r.value)
      && forall j :: i < j < |members| ==> members[j].0 != key)
    ensures r.None? <==> forall m :: m in members ==> m.0 != key
  {
    if members == [] then None
    else
      var init, last := members[..|members| - 1], members[|members| - 1];
      assert members == init + [last];
      if last.0 == key then
        assert members[|members| - 1] == (key, last.1);
        Some(last.1)
      else
        var r := Member(init, key);
        assert r.Some? ==> exists i :: (0 <= i < |members| && members[i] == (key, r.value)
          && forall j :: i < j < |members| ==> members[j].0 != key) by {
          if r.Some? {
            var i :| (0 <= i < |init| && init[i] == (key, r.value)
              && forall j :: i < j < |init| ==> init[j].0 != key);
            assert members[i] == init[i];
          }
        }
        r
  }

  type Point = (real, real)

  /** `(coord[0], coord[1])` of a vertex `[x, y, ...]`, when both are numbers. */
  function Vertex(v: Json): Option<Point> {
    if v.JArr? && |v.items| >= 2 && v.items[0].JNum? && v.items[1].JNum?
    then Some((v.items[0].n, v.items[1].n))
    else None
  }

  /** The vertices of a ring in order; `None` when one of them is not a pair of numbers. */
  function Vertices(ring: seq<Json>): (r: Option<seq<Point>>)
    ensures r.Some? <==> forall v :: v in ring ==> Vertex(v).Some?
    ensures r.Some? ==> |r.value| == |ring|
    ensures r.Some? ==> forall i :: 0 <= i < |ring| ==> Vertex(ring[i]) == Some(r.value[i])
  {
    if ring == [] then Some([])
    else
      var rest := Vertices(ring[1..]);
      assert forall v :: v in ring <==> v == ring[0] || v in ring[1..];
      if Vertex(ring[0]).Some? && rest.Some? then
        var r := [Vertex(ring[0]).value] + rest.value;
        assert forall i :: 1 <= i < |ring| ==> ring[i] == ring[1..][i - 1] && r[i] == rest.value[i - 1];
        Some(r)
      else
        None
  }

  /** `[(coord[1], coord[0]) for coord in coords]`: latitude first. */
  function Swapped(ps: seq<Point>): (r: seq<Point>)
    ensures |r| == |ps|
    ensures forall i :: 0 <= i < |ps| ==> r[i].0 == ps[i].1 && r[i].1 == ps[i].0
  {
    seq(|ps|, i requires 0 <= i < |ps| => (ps[i].1, ps[i].0))
  }

  /** Swapping the axes twice gives the vertices back. */
  lemma SwappedTwice(ps: seq<Point>)
    ensures Swapped(Swapped(ps)) == ps
  {
    var twice := Swapped(Swapped(ps));
    forall i | 0 <= i < |ps| ensures twice[i] == ps[i] {
      assert twice[i].0 == ps[i].0 && twice[i].1 == ps[i].1;
    }
  }

  /** `geo_data['coordinates'][0]` when it is a list; `None` where Python raises or finds no list. */
  function FirstRing(geo: Json): (r: Option<seq<Json>>)
    ensures r.Some? <==>
      geo.JObj? && Member(geo.members, "coordinates").Some?
      && Member(geo.members, "coordinates").value.JArr?
      && |Member(geo.members, "coordinates").value.items| > 0
      && Member(geo.members, "coordinates").value.items[0].JArr?
    ensures r.Some? ==> r.value == Member(geo.members, "coordinates").value.items[0].items
  {
    if !geo.JObj? then None
    else
      match Member(geo.members, "coordinates")
      case Some(JArr(rings)) => if |rings| > 0 && rings[0].JArr? then Some(rings[0].items) else None
      case _ => None
  }

  /**
   * The polygon a decoded geometry draws: the first ring with its axes
   * swapped; `None` where Python raises, or where folium refuses the
   * locations (an empty ring).
   */
  function Outline(geo: Json): (r: Option<seq<Point>>)
    ensures r.Some? <==>
      FirstRing(geo).Some? && |FirstRing(geo).value| > 0
      && forall v :: v in FirstRing(geo).value ==> Vertex(v).Some?
    ensures r.Some? ==>
      var ring := FirstRing(geo).value;
      |r.value| == |ring| &&
      forall i :: 0 <= i < |ring| ==>
        ring[i].JArr? && |ring[i].items| >= 2
        && ring[i].items[1] == JNum(r.value[i].0) && ring[i].items[0] == JNum(r.value[i].1)
  {
    match FirstRing(geo)
    case None => None
    case Some(ring) =>
      match Vertices(ring)
      case None => None
      case Some(ps) => if |ps| > 0 then Some(Swapped(ps)) else None
  }

  /**
   * What one row adds to the map: its polygon, or `None` when the row is
   * counted as problematic. Calling `replace` on a missing or numeric
   * cell raises.
   */
  function RowOutcome(script: Script, row: GreenSpace, decode: string -> Option<Json>): Option<seq<Point>> {
    match row.geometry
    case Str(text) =>
      (match LoadGeometry(script, text, decode)
       case None => None
       case Some(geo) => Outline(geo))
    case _ => None
  }

  /** The polygons the rows draw, in row order. */
  function Drawn(script: Script, rows: seq<GreenSpace>, decode: string -> Option<Json>): (r: seq<seq<Point>>)
    ensures forall p :: p in r ==> exists row :: row in rows && RowOutcome(script, row, decode) == Some(p)
    ensures forall row :: row in rows && RowOutcome(script, row, decode).Some? ==> RowOutcome(script, row, decode).value in r
  {
    if rows == [] then []
    else
      var init, last := rows[..|rows| - 1], rows[|rows| - 1];
      assert rows == init + [last];
      Drawn(script, init, decode)
        + (match RowOutcome(script, last, decode) case Some(p) => [p] case None => [])
  }

  /** How many rows are counted as problematic. */
  function Problematic(script: Script, rows: seq<GreenSpace>, decode: string -> Option<Json>): (n: nat)
    ensures n <= |rows|
  {
    if rows == [] then 0
    else
      Problematic(script, rows[..|rows| - 1], decode)
        + (if RowOutcome(script, rows[|rows| - 1], decode).None? then 1 else 0)
  }

  /** Every row either draws one polygon or is counted once. */
  lemma {:induction false} DrawnPlusProblematic(script: Script, rows: seq<GreenSpace>, decode: string -> Option<Json>)
    ensures |Drawn(script, rows, decode)| + Problematic(script, rows, decode) == |rows|
  {
    if rows != [] {
      DrawnPlusProblematic(script, rows[..|rows| - 1], decode);
    }
  }

  /** One more row of the loop: its polygon is appended, or the counter goes up. */
  lemma LoopStep(script: Script, rows: seq<GreenSpace>, i: nat, decode: string -> Option<Json>)
    requires i < |rows|
    ensures var outcome := RowOutcome(script, rows[i], decode);
      Drawn(script, rows[..i + 1], decode)
        == Drawn(script, rows[..i], decode) + (if outcome.Some? then [outcome.value] else [])
      && Problematic(script, rows[..i + 1], decode)
        == Problematic(script, rows[..i], decode) + (if outcome.None? then 1 else 0)
  {
    assert rows[..i + 1][..i] == rows[..i] && rows[..i + 1][i] == rows[i];
  }

  /** The loop over the green-space table, with its problematic-row counter. */
  method AddGreenSpaces(script: Script, rows: seq<GreenSpace>, decode: string -> Option<Json>)
    returns (polygons: seq<seq<Point>>, problematic: nat)
    ensures polygons == Drawn(script, rows, decode)
    ensures problematic == Problematic(script, rows, decode)
    ensures |polygons| + problematic == |rows|
  {
    polygons, problematic := [], 0;
    var i := 0;
    while i < |rows|
      invariant 0 <= i <= |rows|
      invariant polygons == Drawn(script, rows[..i], decode)
      invariant problematic == Problematic(script, rows[..i], decode)
      invariant |polygons| + problematic == i
    {
      var outcome := RowOutcome(script, rows[i], decode);
      LoopStep(script, rows, i, decode);
      if outcome.Some? {
        polygons := polygons + [outcome.value];
      } else {
        problematic := problematic + 1;
      }
      i := i + 1;
    }
    assert rows[..|rows|] == rows;
  }

  // ---------------------------------------------------------------------
  // Classification filter

  /** Whether a selection filters at all: Python's truth test, and not "TODOS". */
  predicate Selects(selection: Option<string>) {
    selection.Some? && selection.value != "" && selection.value != "TODOS"
  }

  /**
   * `filtrar_espacios_verdes`: with no selection, an empty one or "TODOS"
   * the whole table, otherwise the rows of that classification.
   */
  function FilterByClassification(spaces: seq<GreenSpace>, selection: Option<string>): (r: seq<GreenSpace>)
    ensures !Selects(selection) ==> r == spaces
    ensures Selects(selection) ==>
      forall g :: g in r <==> g in spaces && g.classification == Str(selection.value)
    ensures Selects(selection) ==>
      |r| == CountWhere(spaces, (g: GreenSpace) => g.classification == Str(selection.value))
    ensures Subsequence(r, spaces)
  {
    if Selects(selection) then
      FilterSubsequence(spaces, (g: GreenSpace) => g.classification == Str(selection.value));
      Filter(spaces, (g: GreenSpace) => g.classification == Str(selection.value))
    else
      SubsequenceOfSelf(spaces);
      spaces
  }

  /** Filtering the filtered table again by the same selection changes nothing. */
  lemma FilterByClassificationIdempotent(spaces: seq<GreenSpace>, selection: Option<string>)
    ensures FilterByClassification(FilterByClassification(spaces, selection), selection)
      == FilterByClassification(spaces, selection)
  {
    if Selects(selection) {
      FilterIdempotent(spaces, (g: GreenSpace) => g.classification == Str(selection.value));
    }
  }
}
