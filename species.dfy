/**
 * The species column of the tree registry, as the heat-map page of the
 * dashboard prepares it (app.py): missing names are filled, names are
 * stripped, lowered, three aliases of "unknown" are unified and the result
 * is title-cased; then the share of distinct species that are on a fixed
 * list of species native to Corrientes is computed.
 */
module Species {
  import opened Wrappers
  import opened Text
  import opened Tables
  import opened Tally

  /** The value the dashboard fills missing species with. */
  const Filler: string := "Especie desconocida"

  /** The single name the aliases are mapped to (before title-casing). */
  const Unknown: string := "especie desconocida"

  /** The names `replace` maps to `Unknown`. */
  const Aliases: set<string> := {"sin información", "desconocido", "sin identificar"}

  /** `Series.replace` with the alias dictionary: whole values only. */
  function Canonical(s: string): string {
    if s in Aliases then Unknown else s
  }

  /** `.str.strip().str.lower()`, then the alias replacement, then `.str.title()`. */
  function Normalize(s: string): string {
    Title(Canonical(Lower(Strip(s))))
  }

  /**
   * One cell of the reassigned column: a missing cell is filled first; a
   * number is not text, so the `.str` methods turn it into a missing value.
   */
  function NormalizeCell(c: Cell): (r: Cell)
    ensures r.Str? <==> !c.Num?
    ensures c.Str? ==> r == Str(Normalize(c.text))
    ensures c.Null? ==> r == Str(Normalize(Filler))
    ensures c.Num? ==> r.Null?
  {
    match c
    case Null => Str(Normalize(Filler))
    case Str(t) => Str(Normalize(t))
    case Num(_) => Null
  }

  // The constants, cut into pieces that the case-mapping lemmas can use.
  const FillerTail: string := "specie desconocida"
  const FirstWord: string := "especie"
  const SecondWord: string := "desconocida"
  const Titled: string := "Especie Desconocida"

  lemma FillerPieces()
    ensures Filler == ['E'] + FillerTail
  {
  }

  lemma UnknownPieces()
    ensures Unknown == ['e'] + FillerTail
  {
  }

  lemma UnknownWords()
    ensures Unknown == FirstWord + [' '] + SecondWord
    ensures forall c :: c in FirstWord ==> IsLower(c)
    ensures forall c :: c in SecondWord ==> IsLower(c)
  {
  }

  lemma TitledWords()
    ensures Titled == (['E'] + FirstWord[1..]) + [' '] + (['D'] + SecondWord[1..])
    ensures FirstWord[0] == 'e' && SecondWord[0] == 'd'
  {
  }

  lemma UnknownLower()
    ensures Lower(Unknown) == Unknown
  {
    LowerFixed(Unknown);
  }

  lemma UnknownTrimmed()
    ensures Trimmed(Unknown)
  {
  }

  lemma UnknownNotAlias()
    ensures Unknown !in Aliases
  {
  }

  lemma UnknownFacts()
    ensures Trimmed(Unknown) && Lower(Unknown) == Unknown && Unknown !in Aliases
  {
    UnknownLower();
    UnknownTrimmed();
    UnknownNotAlias();
  }

  lemma TailLower()
    ensures Lower(FillerTail) == FillerTail
  {
    LowerFixed(FillerTail);
  }

  lemma TailLowered()
    ensures Lower(['E'] + FillerTail) == ['e'] + FillerTail
  {
    TailLower();
    LowerCons('E', FillerTail);
  }

  lemma FillerLowered()
    ensures Lower(Filler) == Unknown
  {
    FillerPieces();
    UnknownPieces();
    TailLowered();
  }

  lemma UnknownTitled()
    ensures Title(Unknown) == Titled
  {
    UnknownWords();
    TitledWords();
    TitleAppend(FirstWord + [' '], SecondWord, false);
    TitleAppend(FirstWord, [' '], false);
    TitleWord(FirstWord);
    TitleWord(SecondWord);
    TitleCons(' ', [], true);
    assert TitleFrom([' '], true) == [' '];
  }

  /** What `title` is applied to: stripped, lowered, and not an alias. */
  lemma CanonicalFacts(s: string)
    ensures var a := Canonical(Lower(Strip(s)));
      Trimmed(a) && Lower(a) == a && a !in Aliases
  {
    if Lower(Strip(s)) in Aliases {
      UnknownFacts();
    } else {
      LowerTrimmed(Strip(s));
      LowerLower(Strip(s));
    }
  }

  /** The normalised name has no surrounding whitespace. */
  lemma NormalizeTrimmed(s: string)
    ensures Trimmed(Normalize(s))
  {
    CanonicalFacts(s);
    TitleTrimmed(Canonical(Lower(Strip(s))));
  }

  /** Normalising an already normalised name changes nothing. */
  lemma NormalizeIdempotent(s: string)
    ensures Normalize(Normalize(s)) == Normalize(s)
  {
    var a := Canonical(Lower(Strip(s)));
    CanonicalFacts(s);
    NormalizeTrimmed(s);
    StripTrimmed(Title(a));
    LowerTitle(a);
    assert Lower(Strip(Title(a))) == a;
  }

  lemma FillerNormalized()
    ensures Normalize(Filler) == Titled
  {
    FillerPieces();
    StripTrimmed(Filler);
    FillerLowered();
    UnknownFacts();
    UnknownTitled();
  }

  /** The three aliases, in any case and with any surrounding whitespace, end up as the filler. */
  lemma AliasNormalized(s: string)
    requires Lower(Strip(s)) in Aliases
    ensures Normalize(s) == Titled
  {
    UnknownTitled();
  }

  /** A missing species becomes "Especie Desconocida"; so do the aliases. */
  lemma MissingSpecies()
    ensures NormalizeCell(Null) == Str(Titled)
    ensures forall t :: Lower(Strip(t)) in Aliases ==> NormalizeCell(Str(t)) == Str(Titled)
  {
    FillerNormalized();
    forall t | Lower(Strip(t)) in Aliases ensures NormalizeCell(Str(t)) == Str(Titled) {
      AliasNormalized(t);
    }
  }

  /**
   * Normalising the column a second time changes no text or missing cell;
   * a number, which the first pass turned into a missing cell, would be
   * filled by a second pass.
   */
  lemma NormalizeCellIdempotent(c: Cell)
    ensures !c.Num? ==> NormalizeCell(NormalizeCell(c)) == NormalizeCell(c)
    ensures c.Num? ==> NormalizeCell(NormalizeCell(c)) == Str(Titled) != NormalizeCell(c)
  {
    match c
    case Null => NormalizeIdempotent(Filler);
    case Str(t) => NormalizeIdempotent(t);
    case Num(_) => FillerNormalized();
  }

  // ---------------------------------------------------------------------
  // Native species

  /** The native species of Corrientes as the dashboard lists them. */
  const NativeNames: seq<string> := [
    "Jacarandá", "Lapacho Rosado", "Lapacho amarillo", "Lapacho", "Ingá", "Ceibo", "Ombú", "Sauce", "Urunday",
    "Pata de Buey (Nativa)", "Ñangapirí", "Palo Borracho", "Guayaba", "Mango", "Sauce criollo", "Albizia", "Mamon",
    "Ambaí", "Lapachillo", "Curupí", "Tipa Blanca", "Tecoma Lapachillo", "Timbó Colorado", "Timbó Blanco"]

  /** A name as both lists are compared: `lower().strip()`. */
  function Comparable(s: string): string {
    Strip(Lower(s))
  }

  /** `[especie.lower().strip() for especie in names]` */
  function ComparableAll(names: seq<string>): (l: seq<string>)
    ensures |l| == |names|
    ensures forall i :: 0 <= i < |l| ==> l[i] == Comparable(names[i])
  {
    seq(|names|, i requires 0 <= i < |names| => Comparable(names[i]))
  }

  /**
   * `unique()` of the column, each name made comparable; `None` when the
   * column holds a missing cell, on which `lower()` raises.
   */
  function PresentSpecies(column: seq<Cell>): (r: Option<seq<string>>)
    ensures r.Some? <==> forall c :: c in column ==> c.Str?
    ensures r.Some? ==> |r.value| == |Unique(column)|
  {
    var u := Unique(column);
    if forall c :: c in u ==> c.Str? then
      Some(seq(|u|, i requires 0 <= i < |u| => Comparable(u[i].text)))
    else
      None
  }

  /** Every name in the column is present, in its comparable form ... */
  lemma PresentSpeciesCovers(column: seq<Cell>, c: Cell)
    requires PresentSpecies(column).Some? && c in column
    ensures Comparable(c.text) in PresentSpecies(column).value
  {
    var u := Unique(column);
    var i :| 0 <= i < |u| && u[i] == c;
    assert PresentSpecies(column).value[i] == Comparable(c.text);
  }

  /** ... and nothing else is. */
  lemma PresentSpeciesFrom(column: seq<Cell>, s: string)
    requires PresentSpecies(column).Some? && s in PresentSpecies(column).value
    ensures exists c :: c in column && s == Comparable(c.text)
  {
    var u := Unique(column);
    var i :| 0 <= i < |u| && PresentSpecies(column).value[i] == s;
    assert u[i] in column;
  }

  /** The species present that are on the list `names`, in their order. */
  function NativesPresent(present: seq<string>, names: seq<string>): (found: seq<string>)
    ensures |found| <= |present|
    ensures forall s :: s in found <==> s in present && exists i :: 0 <= i < |names| && s == Comparable(names[i])
    ensures |found| == CountWhere(present, s => s in ComparableAll(names))
    ensures Subsequence(found, present)
  {
    var natives := ComparableAll(names);
    FilterSubsequence(present, s => s in natives);
    Filter(present, s => s in natives)
  }

  /**
   * The percentages of native and of non-native species among the distinct
   * species present, `names` being the list of native species; `None`
   * where the dashboard fails: a missing cell, or no species at all (a
   * division by zero).
   */
  function NativeShare(column: seq<Cell>, names: seq<string>): (r: Option<(real, real)>)
    ensures r.Some? <==> column != [] && forall c :: c in column ==> c.Str?
    ensures r.Some? ==> 0.0 <= r.value.0 <= 100.0 && 0.0 <= r.value.1 <= 100.0
    ensures r.Some? ==> r.value.0 + r.value.1 == 100.0
    ensures r.Some? ==>
      var present := PresentSpecies(column).value;
      IsPercentage(r.value.0, |NativesPresent(present, names)|, |present|)
  {
    var present := PresentSpecies(column);
    if column == [] || present.None? then
      None
    else
      assert column[0] in Unique(column);
      var found := NativesPresent(present.value, names);
      var share := Percentage(|found|, |present.value|);
      Some((share, 100.0 - share))
  }

  /** The dashboard's computation, with its own list of native species. */
  function DashboardNativeShare(column: seq<Cell>): (r: Option<(real, real)>)
    ensures r.Some? <==> column != [] && forall c :: c in column ==> c.Str?
    ensures r.Some? ==> r.value.0 + r.value.1 == 100.0
  {
    NativeShare(column, NativeNames)
  }
}
