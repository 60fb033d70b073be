/**
 The initial positions of the sidebar widgets: each numeric slider spans the
 column's minimum and maximum and starts fully open, the F-Score slider on the
 `int()` of both, and the category selection starts with every distinct
 category of the table.
 */
module Defaults {
  import opened Wrappers
  import opened Table
  import opened Masks
  import opened Filters

  /** The smallest element. */
  function MinOf(xs: seq<real>): (m: real)
    requires xs != []
    ensures m in xs
    ensures forall i :: 0 <= i < |xs| ==> m <= xs[i]
  {
    if |xs| == 1 then xs[0]
    else
      var rest := MinOf(xs[..|xs| - 1]);
      if xs[|xs| - 1] < rest then xs[|xs| - 1] else rest
  }

  /** The largest element. */
  function MaxOf(xs: seq<real>): (m: real)
    requires xs != []
    ensures m in xs
    ensures forall i :: 0 <= i < |xs| ==> xs[i] <= m
  {
    if |xs| == 1 then xs[0]
    else
      var rest := MaxOf(xs[..|xs| - 1]);
      if xs[|xs| - 1] > rest then xs[|xs| - 1] else rest
  }

  /** Python's `int()` on a number: truncation toward zero. */
  function Trunc(x: real): (n: int)
    ensures 0.0 <= x ==> n as real <= x < n as real + 1.0
    ensures x < 0.0 ==> n as real - 1.0 < x <= n as real
  {
    if x >= 0.0 then x.Floor else -((-x).Floor)
  }

  predicate IsWhole(x: real) {
    x == x.Floor as real
  }

  /** The distinct elements in order of first occurrence, as `unique()`
      returns them. */
  function Distinct(xs: seq<string>): (r: seq<string>)
    ensures forall x :: x in r <==> x in xs
    ensures forall i, j :: 0 <= i < j < |r| ==> r[i] != r[j]
  {
    if xs == [] then []
    else
      var rest := Distinct(xs[..|xs| - 1]);
      assert xs == xs[..|xs| - 1] + [xs[|xs| - 1]];
      if xs[|xs| - 1] in rest then rest else rest + [xs[|xs| - 1]]
  }

  function FairValues(rows: seq<Row>): (xs: seq<real>)
    ensures |xs| == |rows| && forall i :: 0 <= i < |rows| ==> xs[i] == rows[i].fairValue
  {
    seq(|rows|, i requires 0 <= i < |rows| => rows[i].fairValue)
  }

  function ZScores(rows: seq<Row>): (xs: seq<real>)
    ensures |xs| == |rows| && forall i :: 0 <= i < |rows| ==> xs[i] == rows[i].zScore
  {
    seq(|rows|, i requires 0 <= i < |rows| => rows[i].zScore)
  }

  function FScores(rows: seq<Row>): (xs: seq<real>)
    ensures |xs| == |rows| && forall i :: 0 <= i < |rows| ==> xs[i] == rows[i].fScore
  {
    seq(|rows|, i requires 0 <= i < |rows| => rows[i].fScore)
  }

  function MScores(rows: seq<Row>): (xs: seq<real>)
    ensures |xs| == |rows| && forall i :: 0 <= i < |rows| ==> xs[i] == rows[i].mScore
  {
    seq(|rows|, i requires 0 <= i < |rows| => rows[i].mScore)
  }

  function Categories(rows: seq<Row>): (xs: seq<string>)
    ensures |xs| == |rows| && forall i :: 0 <= i < |rows| ==> xs[i] == rows[i].valueGeneration
  {
    seq(|rows|, i requires 0 <= i < |rows| => rows[i].valueGeneration)
  }

  /** `v` is the least value of the column and occurs in it. */
  predicate IsColumnMin(xs: seq<real>, v: real) {
    (exists i :: 0 <= i < |xs| && xs[i] == v) && forall i :: 0 <= i < |xs| ==> v <= xs[i]
  }

  /** `v` is the greatest value of the column and occurs in it. */
  predicate IsColumnMax(xs: seq<real>, v: real) {
    (exists i :: 0 <= i < |xs| && xs[i] == v) && forall i :: 0 <= i < |xs| ==> xs[i] <= v
  }

  /** The category column holds exactly the rows' categories. */
  lemma CategoriesMembers(rows: seq<Row>)
    ensures forall v :: v in Categories(rows) <==> exists i :: 0 <= i < |rows| && rows[i].valueGeneration == v
  {
    var vg := Categories(rows);
    forall v | v in vg ensures exists i :: 0 <= i < |rows| && rows[i].valueGeneration == v {
      var i :| 0 <= i < |vg| && vg[i] == v;
      assert rows[i].valueGeneration == v;
    }
    forall v | exists i :: 0 <= i < |rows| && rows[i].valueGeneration == v ensures v in vg {
      var i :| 0 <= i < |rows| && rows[i].valueGeneration == v;
      assert vg[i] == v;
    }
  }

  /** `MinOf` and `MaxOf` are the column's least and greatest values. */
  lemma ColumnBounds(xs: seq<real>)
    requires xs != []
    ensures IsColumnMin(xs, MinOf(xs)) && IsColumnMax(xs, MaxOf(xs))
  {
    assert MinOf(xs) in xs && MaxOf(xs) in xs;
  }

  /** The default widget positions. An empty table has no minimum or maximum:
      the column minimum is NaN and `int()` of it raises, so there are no
      defaults. Otherwise each real range is exactly the column's (min, max),
      the F-Score range is the truncation of the F-Score column's (min, max),
      and the categories are every category of the table, each once. */
  function DefaultCriteria(rows: seq<Row>): (r: Option<Criteria>)
    ensures r.Some? <==> rows != []
    ensures r.Some? ==>
      && IsColumnMin(FairValues(rows), r.value.fairValue.lo)
      && IsColumnMax(FairValues(rows), r.value.fairValue.hi)
      && IsColumnMin(ZScores(rows), r.value.zScore.lo)
      && IsColumnMax(ZScores(rows), r.value.zScore.hi)
      && IsColumnMin(MScores(rows), r.value.mScore.lo)
      && IsColumnMax(MScores(rows), r.value.mScore.hi)
      && (exists lo :: IsColumnMin(FScores(rows), lo) && r.value.fScore.lo == Trunc(lo))
      && (exists hi :: IsColumnMax(FScores(rows), hi) && r.value.fScore.hi == Trunc(hi))
      && (forall v :: v in r.value.categories <==> exists i :: 0 <= i < |rows| && rows[i].valueGeneration == v)
      && (forall i, j :: 0 <= i < j < |r.value.categories| ==> r.value.categories[i] != r.value.categories[j])
  {
    if rows == [] then None
    else
      var fv, z, f, m := FairValues(rows), ZScores(rows), FScores(rows), MScores(rows);
      var vg := Categories(rows);
      ColumnBounds(fv);
      ColumnBounds(z);
      ColumnBounds(f);
      ColumnBounds(m);
      CategoriesMembers(rows);
      Some(Criteria(
        Range(MinOf(fv), MaxOf(fv)),
        Range(MinOf(z), MaxOf(z)),
        IntRange(Trunc(MinOf(f)), Trunc(MaxOf(f))),
        Range(MinOf(m), MaxOf(m)),
        Distinct(vg)))
  }

  /** Every Fair Value, Z-Score and M-Score lies in its default range, and
      every row's category is selected by default. */
  lemma DefaultRangesCoverColumns(rows: seq<Row>)
    requires rows != []
    ensures var c := DefaultCriteria(rows).value;
      forall i :: 0 <= i < |rows| ==>
        && InRange(rows[i].fairValue, c.fairValue)
        && InRange(rows[i].zScore, c.zScore)
        && InRange(rows[i].mScore, c.mScore)
        && rows[i].valueGeneration in c.categories
  {
    var c := DefaultCriteria(rows).value;
    forall i | 0 <= i < |rows|
      ensures InRange(rows[i].fairValue, c.fairValue) && InRange(rows[i].zScore, c.zScore)
      ensures InRange(rows[i].mScore, c.mScore) && rows[i].valueGeneration in c.categories
    {
      assert FairValues(rows)[i] == rows[i].fairValue && ZScores(rows)[i] == rows[i].zScore;
      assert MScores(rows)[i] == rows[i].mScore;
    }
  }

  /** On a whole number `int()` changes nothing. */
  lemma TruncWhole(x: real)
    requires IsWhole(x)
    ensures Trunc(x) as real == x
  {
    if x < 0.0 {
      assert (-x).Floor == -(x.Floor);
    }
  }

  lemma DefaultFScore(rows: seq<Row>)
    requires rows != []
    ensures DefaultCriteria(rows).value.fScore == IntRange(Trunc(MinOf(FScores(rows))), Trunc(MaxOf(FScores(rows))))
  {
  }

  /** When every F-Score is a whole number, every F-Score also lies in the
      default F-Score range. */
  lemma DefaultFScoreRangeCovers(rows: seq<Row>)
    requires rows != []
    requires forall i :: 0 <= i < |rows| ==> IsWhole(rows[i].fScore)
    ensures forall i :: 0 <= i < |rows| ==> InIntRange(rows[i].fScore, DefaultCriteria(rows).value.fScore)
  {
    var f := FScores(rows);
    var lo, hi := MinOf(f), MaxOf(f);
    DefaultFScore(rows);
    assert IsWhole(lo) by {
      var a :| 0 <= a < |f| && f[a] == lo;
    }
    assert IsWhole(hi) by {
      var b :| 0 <= b < |f| && f[b] == hi;
    }
    TruncWhole(lo);
    TruncWhole(hi);
  }

  /** With every widget at its default, the filter keeps the whole table,
      provided the F-Scores are whole numbers. */
  lemma DefaultsKeepEveryRow(rows: seq<Row>)
    requires rows != []
    requires forall i :: 0 <= i < |rows| ==> IsWhole(rows[i].fScore)
    ensures Filter(rows, DefaultCriteria(rows).value) == rows
  {
    var c := DefaultCriteria(rows).value;
    DefaultRangesCoverColumns(rows);
    DefaultFScoreRangeCovers(rows);
    WhereAll(rows, KeepFn(c));
  }

  /** When every row passes the other four tests, a filter keeps every row
      just when its F-Score range, the truncated (`lo`, `hi`) of the F-Score
      column, still contains `lo` and `hi`. */
  lemma KeepAllByFScore(rows: seq<Row>, c: Criteria, lo: real, hi: real)
    requires forall i :: 0 <= i < |rows| ==>
      && InRange(rows[i].fairValue, c.fairValue)
      && InRange(rows[i].zScore, c.zScore)
      && InRange(rows[i].mScore, c.mScore)
      && rows[i].valueGeneration in c.categories
    requires IsColumnMin(FScores(rows), lo) && IsColumnMax(FScores(rows), hi)
    requires c.fScore == IntRange(Trunc(lo), Trunc(hi))
    ensures Filter(rows, c) == rows <==> Trunc(lo) as real <= lo && hi <= Trunc(hi) as real
  {
    var f := FScores(rows);
    if Trunc(lo) as real <= lo && hi <= Trunc(hi) as real {
      forall i | 0 <= i < |rows| ensures Keep(c, rows[i]) {
        assert f[i] == rows[i].fScore;
      }
      WhereAll(rows, KeepFn(c));
    }
    if Filter(rows, c) == rows {
      var a :| 0 <= a < |f| && f[a] == lo;
      var b :| 0 <= b < |f| && f[b] == hi;
      assert rows[a] in Filter(rows, c) && rows[b] in Filter(rows, c);
    }
  }

  /** The exact condition: the defaults keep every row just when truncating
      the F-Score column's minimum does not raise it and truncating its
      maximum does not lower it. */
  lemma DefaultsKeepEveryRowExactly(rows: seq<Row>)
    requires rows != []
    ensures var f := FScores(rows);
      Filter(rows, DefaultCriteria(rows).value) == rows
      <==> Trunc(MinOf(f)) as real <= MinOf(f) && MaxOf(f) <= Trunc(MaxOf(f)) as real
  {
    var f := FScores(rows);
    DefaultRangesCoverColumns(rows);
    DefaultFScore(rows);
    ColumnBounds(f);
    KeepAllByFScore(rows, DefaultCriteria(rows).value, MinOf(f), MaxOf(f));
  }

  /** Without whole F-Scores the defaults can drop rows: in a one-row table
      whose F-Score is 7.5 the F-Score slider defaults to (7, 7), and the
      filter keeps nothing. */
  lemma DefaultsDropFractionalFScore(rows: seq<Row>)
    requires |rows| == 1 && rows[0].fScore == 7.5
    ensures DefaultCriteria(rows).value.fScore == IntRange(7, 7)
    ensures Filter(rows, DefaultCriteria(rows).value) == []
  {
    var c := DefaultCriteria(rows).value;
    var f := FScores(rows);
    assert f == [7.5];
    assert MinOf(f) == 7.5 && MaxOf(f) == 7.5;
    assert Trunc(7.5) == 7;
    WhereNone(rows, KeepFn(c));
  }
}
