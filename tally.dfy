/**
 * Counting over a column with missing values: `Series.count()`,
 * `Series.unique()`, `groupby(col).size()` and `Series.value_counts()`.
 * A column is a sequence of optional values; `None` is a missing cell,
 * which pandas leaves out of every count.
 */
module Tally {
  import opened Wrappers

  predicate Distinct<T(==,!new)>(s: seq<T>) {
    forall i, j :: 0 <= i < j < |s| ==> s[i] != s[j]
  }

  /** How many cells hold `k`. */
  function Occurrences<K(==,!new)>(col: seq<Option<K>>, k: K): (n: nat)
    ensures n <= |col|
    ensures n > 0 <==> Some(k) in col
  {
    if col == [] then 0 else (if col[0] == Some(k) then 1 else 0) + Occurrences(col[1..], k)
  }

  /** `Series.count()`: how many cells are not missing. */
  function NonNull<K(==,!new)>(col: seq<Option<K>>): (n: nat)
    ensures n <= |col|
  {
    if col == [] then 0 else (if col[0].Some? then 1 else 0) + NonNull(col[1..])
  }

  /** How many cells hold one of `keys`. */
  function CountIn<K(==,!new)>(col: seq<Option<K>>, keys: set<K>): (n: nat)
    ensures n <= NonNull(col)
  {
    if col == [] then 0 else (if col[0].Some? && col[0].value in keys then 1 else 0) + CountIn(col[1..], keys)
  }

  /** The sum, over a list of keys, of how many cells hold each key. */
  function SumOccurrences<K(==,!new)>(col: seq<Option<K>>, keys: seq<K>): nat {
    if keys == [] then 0 else Occurrences(col, keys[0]) + SumOccurrences(col, keys[1..])
  }

  lemma {:induction false} CountInAdd<K(!new)>(col: seq<Option<K>>, k: K, keys: set<K>)
    requires k !in keys
    ensures CountIn(col, {k} + keys) == Occurrences(col, k) + CountIn(col, keys)
  {
    if col != [] {
      CountInAdd(col[1..], k, keys);
    }
  }

  /** Over distinct keys, adding up per-key counts counts each cell at most once. */
  lemma {:induction false} SumOfOccurrences<K(!new)>(col: seq<Option<K>>, keys: seq<K>)
    requires Distinct(keys)
    ensures SumOccurrences(col, keys) == CountIn(col, set k | k in keys)
  {
    if keys == [] {
      assert (set k | k in keys) == {};
      CountInNone(col);
    } else {
      var rest := keys[1..];
      assert Distinct(rest);
      SumOfOccurrences(col, rest);
      assert keys[0] !in rest;
      CountInAdd(col, keys[0], set k | k in rest);
      assert (set k | k in keys) == {keys[0]} + (set k | k in rest);
    }
  }

  lemma {:induction false} CountInNone<K(!new)>(col: seq<Option<K>>)
    ensures CountIn(col, {}) == 0
  {
    if col != [] {
      CountInNone(col[1..]);
    }
  }

  /** When every present value is among the keys, every present cell is counted. */
  lemma {:induction false} CountInCovering<K(!new)>(col: seq<Option<K>>, keys: set<K>)
    requires forall k :: Some(k) in col ==> k in keys
    ensures CountIn(col, keys) == NonNull(col)
  {
    if col != [] {
      assert forall k :: Some(k) in col[1..] ==> Some(k) in col;
      CountInCovering(col[1..], keys);
    }
  }

  /** `dropna()`: the present values, in order. */
  function Values<K(==,!new)>(col: seq<Option<K>>): (vs: seq<K>)
    ensures |vs| == NonNull(col)
    ensures forall k :: k in vs <==> Some(k) in col
  {
    if col == [] then []
    else
      var rest := Values(col[1..]);
      assert forall k :: Some(k) in col <==> col[0] == Some(k) || Some(k) in col[1..];
      (if col[0].Some? then [col[0].value] else []) + rest
  }

  /** `unique()`: each value once, in order of first appearance. */
  function Unique<T(==,!new)>(s: seq<T>): (u: seq<T>)
    ensures Distinct(u)
    ensures forall x :: x in u <==> x in s
  {
    if s == [] then []
    else
      var init, x := s[..|s| - 1], s[|s| - 1];
      assert s == init + [x];
      var u := Unique(init);
      if x in u then u else u + [x]
  }

  /**
   * `groupby(col).size()`: one entry per present value, holding how many
   * cells have it; missing cells form no group.
   */
  function GroupSizes<K(==,!new)>(col: seq<Option<K>>): (m: map<K, nat>)
    ensures forall k :: k in m <==> Some(k) in col
    ensures forall k :: k in m ==> m[k] == Occurrences(col, k)
  {
    if col == [] then map[]
    else
      var m := GroupSizes(col[1..]);
      assert forall k :: Some(k) in col <==> col[0] == Some(k) || Some(k) in col[1..];
      match col[0]
      case None => m
      case Some(k) => m[k := (if k in m then m[k] else 0) + 1]
  }

  /** The pandas left merge of a group-size table: the size, or missing when there is no group. */
  function SizeOf<K(==,!new)>(sizes: map<K, nat>, key: Option<K>): Option<nat> {
    if key.Some? && key.value in sizes then Some(sizes[key.value]) else None
  }

  lemma GroupSizeLookup<K(!new)>(col: seq<Option<K>>, k: K)
    ensures SizeOf(GroupSizes(col), Some(k)).GetOr(0) == Occurrences(col, k)
  {
  }

  // ---------------------------------------------------------------------
  // value_counts

  type Counted<K> = (K, nat)

  predicate DistinctKeys<K(==,!new)>(s: seq<Counted<K>>) {
    forall i, j :: 0 <= i < j < |s| ==> s[i].0 != s[j].0
  }

  predicate NonIncreasing<K(==,!new)>(s: seq<Counted<K>>) {
    forall i, j :: 0 <= i < j < |s| ==> s[i].1 >= s[j].1
  }

  /**
   * What `value_counts()` promises: one entry per distinct present value,
   * each with its number of cells, largest count first.
   */
  ghost predicate IsValueCounts<K(!new)>(col: seq<Option<K>>, vc: seq<Counted<K>>) {
    && DistinctKeys(vc)
    && (forall k :: Some(k) in col ==> exists i :: 0 <= i < |vc| && vc[i].0 == k)
    && (forall i :: 0 <= i < |vc| ==> vc[i].1 == Occurrences(col, vc[i].0) && Some(vc[i].0) in col)
    && NonIncreasing(vc)
  }

  /** Place `x` after every entry with a larger count. */
  function InsertByCount<K(==,!new)>(x: Counted<K>, s: seq<Counted<K>>): (r: seq<Counted<K>>)
    ensures |r| == |s| + 1
    ensures forall y :: y in r <==> y == x || y in s
  {
    if s == [] || s[0].1 <= x.1 then [x] + s
    else
      assert forall y :: y in s <==> y == s[0] || y in s[1..];
      [s[0]] + InsertByCount(x, s[1..])
  }

  lemma {:induction false} InsertKeepsOrder<K(!new)>(x: Counted<K>, s: seq<Counted<K>>)
    requires NonIncreasing(s)
    ensures NonIncreasing(InsertByCount(x, s))
  {
    var r := InsertByCount(x, s);
    if s == [] || s[0].1 <= x.1 {
      assert forall j :: 1 <= j < |r| ==> r[j] == s[j - 1];
    } else {
      var t := InsertByCount(x, s[1..]);
      InsertKeepsOrder(x, s[1..]);
      assert forall y :: y in t ==> y.1 <= s[0].1 by {
        forall y | y in t ensures y.1 <= s[0].1 {
          if y != x {
            var j :| 1 <= j < |s| && s[j] == y;
          }
        }
      }
      assert forall j :: 1 <= j < |r| ==> r[j] == t[j - 1] && r[j] in t;
    }
  }

  lemma {:induction false} InsertKeepsKeys<K(!new)>(x: Counted<K>, s: seq<Counted<K>>)
    requires DistinctKeys(s) && forall y :: y in s ==> y.0 != x.0
    ensures DistinctKeys(InsertByCount(x, s))
  {
    var r := InsertByCount(x, s);
    if s == [] || s[0].1 <= x.1 {
      assert forall j :: 1 <= j < |r| ==> r[j] == s[j - 1] && r[j] in s;
    } else {
      var t := InsertByCount(x, s[1..]);
      InsertKeepsKeys(x, s[1..]);
      assert forall y :: y in t ==> y.0 != s[0].0 by {
        forall y | y in t ensures y.0 != s[0].0 {
          if y != x {
            var j :| 1 <= j < |s| && s[j] == y;
          }
        }
      }
      assert forall j :: 1 <= j < |r| ==> r[j] == t[j - 1] && r[j] in t;
    }
  }

  lemma DistinctKeysTail<K(!new)>(s: seq<Counted<K>>)
    requires s != [] && DistinctKeys(s)
    ensures DistinctKeys(s[1..])
    ensures forall y :: y in s[1..] ==> y.0 != s[0].0
  {
    forall y | y in s[1..] ensures y.0 != s[0].0 {
      var j :| 0 <= j < |s[1..]| && s[1..][j] == y;
      assert s[j + 1] == y;
    }
  }

  /** Insertion sort by count, largest first; entries with equal counts keep their order. */
  function SortByCount<K(==,!new)>(s: seq<Counted<K>>): (r: seq<Counted<K>>)
    ensures |r| == |s|
    ensures forall y :: y in r <==> y in s
    ensures NonIncreasing(r)
    ensures DistinctKeys(s) ==> DistinctKeys(r)
  {
    if s == [] then []
    else
      var sorted := SortByCount(s[1..]);
      assert forall y :: y in s <==> y == s[0] || y in s[1..];
      InsertKeepsOrder(s[0], sorted);
      if DistinctKeys(s) then
        DistinctKeysTail(s);
        InsertKeepsKeys(s[0], sorted);
        InsertByCount(s[0], sorted)
      else
        InsertByCount(s[0], sorted)
  }

  /** Each present value with its count, in order of first appearance. */
  function Tallied<K(==,!new)>(col: seq<Option<K>>): (t: seq<Counted<K>>)
    ensures DistinctKeys(t)
    ensures forall y :: y in t ==> y.1 == Occurrences(col, y.0) && Some(y.0) in col
    ensures forall k :: Some(k) in col ==> (k, Occurrences(col, k)) in t
  {
    var u := Unique(Values(col));
    var t := seq(|u|, i requires 0 <= i < |u| => (u[i], Occurrences(col, u[i])));
    assert forall k :: Some(k) in col ==> (k, Occurrences(col, k)) in t by {
      forall k | Some(k) in col ensures (k, Occurrences(col, k)) in t {
        var i :| 0 <= i < |u| && u[i] == k;
        assert t[i] == (k, Occurrences(col, k));
      }
    }
    t
  }

  /** `value_counts()`; the order among equal counts is the order of first appearance. */
  function ValueCounts<K(==,!new)>(col: seq<Option<K>>): (vc: seq<Counted<K>>)
    ensures IsValueCounts(col, vc)
  {
    var vc := SortByCount(Tallied(col));
    assert forall k :: Some(k) in col ==> exists i :: 0 <= i < |vc| && vc[i].0 == k by {
      forall k | Some(k) in col ensures exists i :: 0 <= i < |vc| && vc[i].0 == k {
        assert (k, Occurrences(col, k)) in vc;
      }
    }
    assert forall i :: 0 <= i < |vc| ==> vc[i].1 == Occurrences(col, vc[i].0) && Some(vc[i].0) in col by {
      forall i | 0 <= i < |vc| ensures vc[i].1 == Occurrences(col, vc[i].0) && Some(vc[i].0) in col {
        assert vc[i] in vc;
      }
    }
    vc
  }

  function SumCounts<K(==,!new)>(vc: seq<Counted<K>>): nat {
    if vc == [] then 0 else vc[0].1 + SumCounts(vc[1..])
  }

  function KeysOf<K(==,!new)>(vc: seq<Counted<K>>): (ks: seq<K>)
    ensures |ks| == |vc|
    ensures forall i :: 0 <= i < |vc| ==> ks[i] == vc[i].0
  {
    seq(|vc|, i requires 0 <= i < |vc| => vc[i].0)
  }

  lemma {:induction false} SumCountsIsSum<K(!new)>(col: seq<Option<K>>, vc: seq<Counted<K>>)
    requires forall i :: 0 <= i < |vc| ==> vc[i].1 == Occurrences(col, vc[i].0)
    ensures SumCounts(vc) == SumOccurrences(col, KeysOf(vc))
  {
    if vc != [] {
      SumCountsIsSum(col, vc[1..]);
      assert KeysOf(vc)[1..] == KeysOf(vc[1..]);
    }
  }

  /** The counts of `value_counts()` add up to the number of non-missing cells. */
  lemma ValueCountsTotal<K(!new)>(col: seq<Option<K>>, vc: seq<Counted<K>>)
    requires IsValueCounts(col, vc)
    ensures SumCounts(vc) == NonNull(col)
  {
    SumCountsIsSum(col, vc);
    var ks := KeysOf(vc);
    SumOfOccurrences(col, ks);
    forall k | Some(k) in col ensures k in (set k | k in ks) {
      var i :| 0 <= i < |vc| && vc[i].0 == k;
      assert ks[i] == k;
    }
    CountInCovering(col, set k | k in ks);
  }

  // ---------------------------------------------------------------------
  // Percentages

  /** `p` is `part` as a percentage of `whole`. */
  predicate IsPercentage(p: real, part: nat, whole: nat) {
    p * whole as real == 100.0 * part as real
  }

  /** `(part / whole) * 100` for counts. */
  function Percentage(part: nat, whole: nat): (p: real)
    requires part <= whole && whole > 0
    ensures 0.0 <= p <= 100.0
    ensures IsPercentage(p, part, whole)
  {
    assert part as real / whole as real <= 1.0;
    (part as real / whole as real) * 100.0
  }
}
