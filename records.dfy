/**
 * The rows of the tables the scripts read, and the tree registry, whose
 * coordinate and species columns the scripts overwrite in place.
 */
module Records {
  import opened Wrappers
  import opened Tables
  import Coordinates
  import Species
  import Text

  /** A row of the tree registry; the columns in file order. */
  datatype Tree = Tree(
    id: int,               // id_arbol
    address: Cell,         // direccion
    sidewalkType: Cell,    // tipo_vereda
    sidewalkSide: Cell,    // lado_vereda
    species: Cell,         // especie
    wiring: Cell,          // tipo_tendido
    treeSpacing: Cell,     // distancia_entre_ar
    wallDistance: Cell,    // distancia_al_muro
    active: Option<bool>,  // activo
    lng: Cell,
    lat: Cell)

  /** A row of the maintenance log: the tree it is about, its health status and the other columns. */
  datatype Maintenance = Maintenance(treeId: int, health: Option<string>, details: seq<Cell>)

  /** A row of the green-space table: `gid`, `st_asgeojson`, `clasificacion`, `id_barrios` and the rest. */
  datatype GreenSpace = GreenSpace(gid: Cell, geometry: Cell, classification: Cell, neighbourhoodId: Cell, details: seq<Cell>)

  /** A row of the neighbourhood table: `id_barrios`, `nombre_barrio` and the rest. */
  datatype Neighbourhood = Neighbourhood(id: Cell, name: Cell, details: seq<Cell>)

  // ---------------------------------------------------------------------
  // Coordinate columns

  /** What the cleaner leaves in a coordinate cell: nothing, or a number in [-90, 90]. */
  predicate ValidCoordinate(c: Cell) {
    c.Null? || (c.Num? && Coordinates.InRange(c.value))
  }

  function CorrectedTree(t: Tree): Tree {
    t.(lat := Coordinates.CoordinateCell(t.lat), lng := Coordinates.CoordinateCell(t.lng))
  }

  /** The registry after `corregir_coordenadas` is applied to `lat`, then to `lng`. */
  function Corrected(rows: seq<Tree>): (r: seq<Tree>)
    ensures |r| == |rows|
    ensures forall i :: 0 <= i < |r| ==> r[i].lat == Coordinates.CoordinateCell(rows[i].lat)
    ensures forall i :: 0 <= i < |r| ==> r[i].lng == Coordinates.CoordinateCell(rows[i].lng)
    ensures forall i :: 0 <= i < |r| ==> r[i] == rows[i].(lat := r[i].lat, lng := r[i].lng)
    ensures forall i :: 0 <= i < |r| ==> ValidCoordinate(r[i].lat) && ValidCoordinate(r[i].lng)
  {
    seq(|rows|, i requires 0 <= i < |rows| => CorrectedTree(rows[i]))
  }

  /** A cleaned coordinate is left as it is by a second cleaning. */
  lemma CoordinateCellIdempotent(c: Cell)
    ensures Coordinates.CoordinateCell(Coordinates.CoordinateCell(c)) == Coordinates.CoordinateCell(c)
  {
  }

  /** Correcting the registry twice is correcting it once. */
  lemma CorrectedIdempotent(rows: seq<Tree>)
    ensures Corrected(Corrected(rows)) == Corrected(rows)
  {
    var once := Corrected(rows);
    forall i | 0 <= i < |rows| ensures Corrected(once)[i] == once[i] {
      CoordinateCellIdempotent(rows[i].lat);
      CoordinateCellIdempotent(rows[i].lng);
    }
  }

  /**
   * `pd.to_numeric(column, errors='coerce')` on one cell: numbers stay,
   * text becomes the number `parse` reads from it or a missing value.
   * How pandas reads numbers from text is the parameter `parse`.
   */
  function ToNumeric(c: Cell, parse: string -> Option<real>): (r: Cell)
    ensures r.Null? || r.Num?
    ensures c.Num? ==> r == c
    ensures c.Null? ==> r.Null?
    ensures c.Str? ==> r == (if parse(c.text).Some? then Num(parse(c.text).value) else Null)
  {
    match c
    case Null => Null
    case Num(_) => c
    case Str(t) => if parse(t).Some? then Num(parse(t).value) else Null
  }

  function CoercedTree(t: Tree, parse: string -> Option<real>): Tree {
    t.(lat := ToNumeric(t.lat, parse), lng := ToNumeric(t.lng, parse))
  }

  /** The registry after `to_numeric` is applied to `lat`, then to `lng`. */
  function Coerced(rows: seq<Tree>, parse: string -> Option<real>): (r: seq<Tree>)
    ensures |r| == |rows|
    ensures forall i :: 0 <= i < |r| ==> r[i] == CoercedTree(rows[i], parse)
  {
    seq(|rows|, i requires 0 <= i < |rows| => CoercedTree(rows[i], parse))
  }

  /** `dropna(subset=['lat', 'lng'])` keeps a row when neither cell is missing. */
  predicate Located(t: Tree) {
    !t.lat.Null? && !t.lng.Null?
  }

  function WithCoordinates(rows: seq<Tree>): (r: seq<Tree>)
    ensures forall t :: t in r <==> t in rows && Located(t)
    ensures |r| == CountWhere(rows, Located)
    ensures Subsequence(r, rows)
  {
    FilterSubsequence(rows, Located);
    Filter(rows, Located)
  }

  /** A cell that `to_numeric` turns into a number: a number, or a text `parse` reads. */
  predicate Numeric(c: Cell, parse: string -> Option<real>) {
    c.Num? || (c.Str? && parse(c.text).Some?)
  }

  /**
   * After coercion and `dropna`, every row left has numeric coordinates,
   * the rows keep their order, and a row whose coordinates were already
   * numbers is never dropped.
   */
  lemma CoerceThenDrop(rows: seq<Tree>, parse: string -> Option<real>)
    ensures forall t :: t in WithCoordinates(Coerced(rows, parse)) ==> t.lat.Num? && t.lng.Num?
    ensures Subsequence(WithCoordinates(Coerced(rows, parse)), Coerced(rows, parse))
    ensures forall t :: t in rows && t.lat.Num? && t.lng.Num? ==> t in WithCoordinates(Coerced(rows, parse))
    ensures forall t :: t in rows && Numeric(t.lat, parse) && Numeric(t.lng, parse) ==>
      CoercedTree(t, parse) in WithCoordinates(Coerced(rows, parse))
    ensures forall u :: u in WithCoordinates(Coerced(rows, parse)) ==>
      exists t :: t in rows && Numeric(t.lat, parse) && Numeric(t.lng, parse) && u == CoercedTree(t, parse)
  {
    var coerced := Coerced(rows, parse);
    forall t | t in coerced ensures (t.lat.Null? || t.lat.Num?) && (t.lng.Null? || t.lng.Num?) {
      var i :| 0 <= i < |coerced| && coerced[i] == t;
    }
    forall t | t in rows && t.lat.Num? && t.lng.Num? ensures t in coerced && Located(t) {
      var i :| 0 <= i < |rows| && rows[i] == t;
      assert coerced[i] == t;
    }
    forall t | t in rows && Numeric(t.lat, parse) && Numeric(t.lng, parse)
      ensures CoercedTree(t, parse) in coerced && Located(CoercedTree(t, parse))
    {
      var i :| 0 <= i < |rows| && rows[i] == t;
      assert coerced[i] == CoercedTree(t, parse);
    }
    forall u | u in coerced && Located(u)
      ensures exists t :: t in rows && Numeric(t.lat, parse) && Numeric(t.lng, parse) && u == CoercedTree(t, parse)
    {
      var i :| 0 <= i < |coerced| && coerced[i] == u;
      assert u == CoercedTree(rows[i], parse) && rows[i] in rows;
    }
  }

  // ---------------------------------------------------------------------
  // Species column

  function SpeciesNormalized(rows: seq<Tree>): (r: seq<Tree>)
    ensures |r| == |rows|
    ensures forall i :: 0 <= i < |r| ==> r[i] == rows[i].(species := Species.NormalizeCell(rows[i].species))
  {
    seq(|rows|, i requires 0 <= i < |rows| => rows[i].(species := Species.NormalizeCell(rows[i].species)))
  }

  /** After normalisation no species is a number, and every text species is trimmed. */
  lemma SpeciesNormalizedShape(rows: seq<Tree>)
    ensures forall t :: t in SpeciesNormalized(rows) ==> !t.species.Num?
    ensures forall t :: t in SpeciesNormalized(rows) && t.species.Str? ==> Text.Trimmed(t.species.text)
  {
    var r := SpeciesNormalized(rows);
    forall t | t in r && t.species.Str? ensures Text.Trimmed(t.species.text) {
      var i :| 0 <= i < |r| && r[i] == t;
      match rows[i].species
      case Null => Species.NormalizeTrimmed(Species.Filler);
      case Str(s) => Species.NormalizeTrimmed(s);
      case Num(_) =>
    }
  }

  /** The registry as a table whose columns the scripts overwrite in place. */
  class TreeRegistry {
    var rows: seq<Tree>

    constructor(rows: seq<Tree>)
      ensures this.rows == rows
    {
      this.rows := rows;
    }

    /** `df['lat'] = df['lat'].apply(corregir_coordenadas)`, then the same for `lng`. */
    method CorrectCoordinates()
      modifies this
      ensures rows == Corrected(old(rows))
    {
      rows := Corrected(rows);
    }

    /** `df['lat'] = pd.to_numeric(df['lat'], errors='coerce')`, then the same for `lng`. */
    method CoerceCoordinates(parse: string -> Option<real>)
      modifies this
      ensures rows == Coerced(old(rows), parse)
    {
      rows := Coerced(rows, parse);
    }

    /** `df = df.dropna(subset=['lat', 'lng'])` */
    method DropMissingCoordinates()
      modifies this
      ensures rows == WithCoordinates(old(rows))
    {
      rows := WithCoordinates(rows);
    }

    /** The three reassignments of `df['especie']` on the heat-map page. */
    method NormalizeSpecies()
      modifies this
      ensures rows == SpeciesNormalized(old(rows))
    {
      rows := SpeciesNormalized(rows);
    }
  }
}
