/**
 * Row-level table operations shared by the three scripts: a pandas cell,
 * boolean-mask filtering (also `dropna`) and the left-outer merge.
 */
module Tables {
  import opened Wrappers

  /** A cell of an untyped pandas column: missing (`NaN`/`None`), a number or a text. */
  datatype Cell = Null | Num(value: real) | Str(text: string)

  /** `fillna(0)` on one cell. */
  function FillZero(c: Cell): (r: Cell)
    ensures !r.Null?
    ensures !c.Null? ==> r == c
  {
    if c.Null? then Num(0.0) else c
  }

  /** The number of elements that satisfy `p`. */
  function CountWhere<T>(s: seq<T>, p: T -> bool): (n: nat)
    ensures n <= |s|
  {
    if s == [] then 0 else (if p(s[0]) then 1 else 0) + CountWhere(s[1..], p)
  }

  /** `a` is `b` with some elements left out, the rest in their order. */
  predicate Subsequence<T(==)>(a: seq<T>, b: seq<T>)
    decreases |b|
  {
    a == [] || (b != [] && ((a[0] == b[0] && Subsequence(a[1..], b[1..])) || Subsequence(a, b[1..])))
  }

  lemma {:induction false} SubsequenceOfSelf<T>(s: seq<T>)
    ensures Subsequence(s, s)
  {
    if s != [] {
      SubsequenceOfSelf(s[1..]);
    }
  }

  /**
   * `df[mask]`: the rows that satisfy `p`, in their order. The three
   * ensures clauses determine the result: a subsequence of `s` made only of
   * rows satisfying `p`, as long as the number of such rows.
   */
  function Filter<T>(s: seq<T>, p: T -> bool): (r: seq<T>)
    ensures forall x :: x in r ==> x in s && p(x)
    ensures forall x :: x in s && p(x) ==> x in r
    ensures |r| == CountWhere(s, p)
  {
    if s == [] then [] else (if p(s[0]) then [s[0]] else []) + Filter(s[1..], p)
  }

  lemma {:induction false} FilterSubsequence<T>(s: seq<T>, p: T -> bool)
    ensures Subsequence(Filter(s, p), s)
  {
    if s != [] {
      var rest := Filter(s[1..], p);
      FilterSubsequence(s[1..], p);
      if p(s[0]) {
        var r := [s[0]] + rest;
        assert Filter(s, p) == r;
        assert r[0] == s[0] && r[1..] == rest;
      } else {
        assert Filter(s, p) == rest;
      }
    }
  }

  /** Filtering a second time with the same mask changes nothing. */
  lemma {:induction false} FilterIdempotent<T>(s: seq<T>, p: T -> bool)
    ensures Filter(Filter(s, p), p) == Filter(s, p)
  {
    if s != [] {
      FilterIdempotent(s[1..], p);
      if p(s[0]) {
        assert Filter(s, p) == [s[0]] + Filter(s[1..], p);
        assert ([s[0]] + Filter(s[1..], p))[1..] == Filter(s[1..], p);
      } else {
        assert Filter(s, p) == Filter(s[1..], p);
      }
    }
  }

  /** A mask that every row satisfies keeps the table as it is. */
  lemma {:induction false} FilterAll<T>(s: seq<T>, p: T -> bool)
    requires forall x :: x in s ==> p(x)
    ensures Filter(s, p) == s
  {
    if s != [] {
      FilterAll(s[1..], p);
      assert [s[0]] + s[1..] == s;
    }
  }

  lemma {:induction false} FilterAppend<T>(a: seq<T>, b: seq<T>, p: T -> bool)
    ensures Filter(a + b, p) == Filter(a, p) + Filter(b, p)
  {
    if a != [] {
      FilterAppend(a[1..], b, p);
      assert (a + b)[1..] == a[1..] + b;
    } else {
      assert a + b == b;
    }
  }

  /** A mask that no row satisfies keeps nothing. */
  lemma {:induction false} FilterNone<T>(s: seq<T>, p: T -> bool)
    requires forall x :: x in s ==> !p(x)
    ensures Filter(s, p) == []
  {
    if s != [] {
      FilterNone(s[1..], p);
    }
  }

  /** Filtering by a mask, then by a stricter one, is filtering by the stricter one. */
  lemma {:induction false} FilterNarrow<T>(s: seq<T>, p: T -> bool, q: T -> bool)
    requires forall x :: q(x) ==> p(x)
    ensures Filter(Filter(s, p), q) == Filter(s, q)
  {
    if s != [] {
      FilterNarrow(s[1..], p, q);
      if p(s[0]) {
        assert Filter(s, p) == [s[0]] + Filter(s[1..], p);
        assert ([s[0]] + Filter(s[1..], p))[1..] == Filter(s[1..], p);
      } else {
        assert Filter(s, p) == Filter(s[1..], p);
      }
    }
  }

  /** The right rows that a left row joins with, in their order. */
  function Partners<L, R>(l: L, right: seq<R>, on: (L, R) -> bool): seq<R> {
    Filter(right, r => on(l, r))
  }

  /** The output rows of one left row: one per partner, or one with no right side. */
  function JoinRow<L, R>(l: L, right: seq<R>, on: (L, R) -> bool): (rows: seq<(L, Option<R>)>)
    ensures |rows| == if CountWhere(right, r => on(l, r)) == 0 then 1 else CountWhere(right, r => on(l, r))
    ensures forall row :: row in rows ==> row.0 == l
    ensures forall row :: row in rows && row.1.Some? ==> row.1.value in right && on(l, row.1.value)
    ensures forall row :: row in rows && row.1.None? ==> forall r :: r in right ==> !on(l, r)
    ensures forall r :: r in right && on(l, r) ==> (l, Some(r)) in rows
    ensures (l, None) in rows || (exists r :: r in right && (l, Some(r)) in rows)
    ensures CountWhere(right, r => on(l, r)) == 0 ==> rows == [(l, None)]
    ensures CountWhere(right, r => on(l, r)) > 0 ==>
      forall i :: 0 <= i < |rows| ==> rows[i] == (l, Some(Partners(l, right, on)[i]))
  {
    var ms := Partners(l, right, on);
    if ms == [] then [(l, None)]
    else
      var rows := seq(|ms|, i requires 0 <= i < |ms| => (l, Some(ms[i])));
      assert forall row :: row in rows ==> row.1.Some? && row.1.value in ms by {
        forall row | row in rows ensures row.1.Some? && row.1.value in ms {
          var i :| 0 <= i < |rows| && rows[i] == row;
        }
      }
      assert forall r :: r in right && on(l, r) ==> (l, Some(r)) in rows by {
        forall r | r in right && on(l, r) ensures (l, Some(r)) in rows {
          var i :| 0 <= i < |ms| && ms[i] == r;
          assert rows[i] == (l, Some(r));
        }
      }
      assert rows[0] == (l, Some(ms[0]));
      rows
  }

  /** One term per left row of the expected join size: its partner count, at least 1. */
  function JoinSize<L, R>(left: seq<L>, right: seq<R>, on: (L, R) -> bool): nat {
    if left == [] then 0
    else
      var n := CountWhere(right, r => on(left[0], r));
      (if n == 0 then 1 else n) + JoinSize(left[1..], right, on)
  }

  /**
   * `pd.merge(left, right, how='left')`: every left row, in order, once per
   * matching right row (in right order), or once with no right side when
   * nothing matches.
   */
  function LeftJoin<L, R>(left: seq<L>, right: seq<R>, on: (L, R) -> bool): (rows: seq<(L, Option<R>)>)
    ensures |rows| == JoinSize(left, right, on) && |rows| >= |left|
    ensures forall row :: row in rows ==> row.0 in left
    ensures forall row :: row in rows && row.1.Some? ==> row.1.value in right && on(row.0, row.1.value)
    ensures forall row :: row in rows && row.1.None? ==> forall r :: r in right ==> !on(row.0, r)
    ensures forall l, r :: l in left && r in right && on(l, r) ==> (l, Some(r)) in rows
    ensures forall l :: l in left ==> exists row :: row in rows && row.0 == l
  {
    if left == [] then []
    else
      var head, tail := JoinRow(left[0], right, on), LeftJoin(left[1..], right, on);
      assert forall l :: l in left ==> l == left[0] || l in left[1..];
      assert exists row :: row in head && row.0 == left[0] by {
        if (left[0], None) in head {
        } else {
          var r :| r in right && (left[0], Some(r)) in head;
        }
      }
      head + tail
  }

  /** A single left row produces exactly its own output rows. */
  lemma LeftJoinSingle<L, R>(l: L, right: seq<R>, on: (L, R) -> bool)
    ensures LeftJoin([l], right, on) == JoinRow(l, right, on)
  {
    assert [l][1..] == [];
  }

  /**
   * The merge works row by row: the output of `a + b` is the output of `a`
   * followed by that of `b`, so every left row contributes its own rows,
   * in left order.
   */
  lemma {:induction false} LeftJoinAppend<L, R>(a: seq<L>, b: seq<L>, right: seq<R>, on: (L, R) -> bool)
    ensures LeftJoin(a + b, right, on) == LeftJoin(a, right, on) + LeftJoin(b, right, on)
  {
    if a == [] {
      assert a + b == b;
    } else {
      var ab := a + b;
      assert ab[0] == a[0] && ab[1..] == a[1..] + b;
      calc {
        LeftJoin(ab, right, on);
        JoinRow(a[0], right, on) + LeftJoin(a[1..] + b, right, on);
        { LeftJoinAppend(a[1..], b, right, on); }
        JoinRow(a[0], right, on) + (LeftJoin(a[1..], right, on) + LeftJoin(b, right, on));
        LeftJoin(a, right, on) + LeftJoin(b, right, on);
      }
    }
  }
}
