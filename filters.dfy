/**
 The sidebar filters and the row mask they define: four inclusive ranges, over
 Fair Value, Z-Score, F-Score and M-Score, and a set of selected Value
 Generation categories. A row is kept when it passes all five tests. The
 defaults are each column's minimum and maximum (the F-Score pair truncated to
 integers) and every category present in the table.
 */
module Filters {
  import opened Wrappers
  import opened Table
  import opened Masks

  /** An inclusive range as a slider returns it. */
  datatype Range = Range(lo: real, hi: real)

  /** The F-Score slider works on integers. */
  datatype IntRange = IntRange(lo: int, hi: int)

  /** The positions of the five sidebar widgets. */
  datatype Criteria = Criteria(
    fairValue: Range,
    zScore: Range,
    fScore: IntRange,
    mScore: Range,
    categories: seq<string>)

  /** The five tests of the mask, one per widget. */
  datatype Test = FairValueTest | ZScoreTest | FScoreTest | MScoreTest | CategoryTest

  predicate InRange(x: real, r: Range) {
    r.lo <= x <= r.hi
  }

  predicate InIntRange(x: real, r: IntRange) {
    r.lo as real <= x <= r.hi as real
  }

  /** The row mask, test by test. */
  predicate Keep(c: Criteria, r: Row) {
    && InRange(r.fairValue, c.fairValue)
    && InRange(r.zScore, c.zScore)
    && InIntRange(r.fScore, c.fScore)
    && InRange(r.mScore, c.mScore)
    && r.valueGeneration in c.categories
  }

  function KeepFn(c: Criteria): Row -> bool {
    r => Keep(c, r)
  }

  /** The filtered table: the rows the mask keeps, in their original order. */
  function Filter(rows: seq<Row>, c: Criteria): (r: seq<Row>)
    ensures |r| <= |rows|
    ensures forall x :: x in r <==> x in rows && Keep(c, x)
  {
    var r := Where(rows, KeepFn(c));
    assert forall x :: x in r <==> x in rows && Keep(c, x) by {
      forall x ensures x in r <==> x in rows && Keep(c, x) {
        WhereMembership(rows, KeepFn(c), x);
      }
    }
    r
  }

  /** The filtered table is a subsequence of the full table: its `k`-th row is
      the full table's row at the `k`-th position the mask keeps, those
      positions increase, and they are exactly the rows that pass every test. */
  lemma FilterIsSubsequence(rows: seq<Row>, c: Criteria)
    ensures var pos := Positions(MaskOf(rows, KeepFn(c)));
      && |Filter(rows, c)| == |pos|
      && (forall k :: 0 <= k < |pos| ==> Filter(rows, c)[k] == rows[pos[k]])
      && (forall k, l :: 0 <= k < l < |pos| ==> pos[k] < pos[l])
      && (forall i :: 0 <= i < |rows| ==> (i in pos <==> Keep(c, rows[i])))
  {
    SelectAt(rows, MaskOf(rows, KeepFn(c)));
  }

  /** `c2` is at least as permissive as `c1`: every lower bound is lower or
      equal, every upper bound higher or equal, and every selected category is
      still selected. */
  predicate Widens(c1: Criteria, c2: Criteria) {
    && c2.fairValue.lo <= c1.fairValue.lo && c1.fairValue.hi <= c2.fairValue.hi
    && c2.zScore.lo <= c1.zScore.lo && c1.zScore.hi <= c2.zScore.hi
    && c2.fScore.lo <= c1.fScore.lo && c1.fScore.hi <= c2.fScore.hi
    && c2.mScore.lo <= c1.mScore.lo && c1.mScore.hi <= c2.mScore.hi
    && forall v :: v in c1.categories ==> v in c2.categories
  }

  /** Widening the filters never removes a row: the narrower result is what
      the narrower filters keep of the wider result, so it is a subsequence of
      it and no longer. */
  lemma FilterMonotone(rows: seq<Row>, c1: Criteria, c2: Criteria)
    requires Widens(c1, c2)
    ensures Filter(rows, c1) == Filter(Filter(rows, c2), c1)
    ensures |Filter(rows, c1)| <= |Filter(rows, c2)|
  {
    WhereWhere(rows, KeepFn(c2), KeepFn(c1), KeepFn(c1));
  }

  /** With no category selected, no row is kept. */
  lemma FilterNoCategory(rows: seq<Row>, c: Criteria)
    requires c.categories == []
    ensures Filter(rows, c) == []
  {
    WhereNone(rows, KeepFn(c));
  }

  /** Whether row `r` passes test `t`. */
  predicate Passes(c: Criteria, t: Test, r: Row) {
    match t
    case FairValueTest => InRange(r.fairValue, c.fairValue)
    case ZScoreTest => InRange(r.zScore, c.zScore)
    case FScoreTest => InIntRange(r.fScore, c.fScore)
    case MScoreTest => InRange(r.mScore, c.mScore)
    case CategoryTest => r.valueGeneration in c.categories
  }

  function PassesFn(c: Criteria, t: Test): Row -> bool {
    r => Passes(c, t, r)
  }

  function PassesAllFn(c: Criteria, tests: seq<Test>): Row -> bool {
    r => forall t :: t in tests ==> Passes(c, t, r)
  }

  /** Filtering by the tests one after another, in the order given. */
  function FilterInStages(rows: seq<Row>, c: Criteria, tests: seq<Test>): seq<Row>
    decreases |tests|
  {
    if tests == [] then rows
    else FilterInStages(Where(rows, PassesFn(c, tests[0])), c, tests[1..])
  }

  /** Filtering in stages keeps the rows that pass every test of the stages. */
  lemma {:induction false} StagesKeepPassingRows(rows: seq<Row>, c: Criteria, tests: seq<Test>)
    ensures FilterInStages(rows, c, tests) == Where(rows, PassesAllFn(c, tests))
    decreases |tests|
  {
    if tests == [] {
      WhereAll(rows, PassesAllFn(c, tests));
    } else {
      var first := Where(rows, PassesFn(c, tests[0]));
      StagesKeepPassingRows(first, c, tests[1..]);
      var rest := PassesAllFn(c, tests[1..]);
      assert forall x :: PassesAllFn(c, tests)(x) == (PassesFn(c, tests[0])(x) && rest(x)) by {
        forall x ensures PassesAllFn(c, tests)(x) == (PassesFn(c, tests[0])(x) && rest(x)) {
          assert forall t :: t in tests <==> t == tests[0] || t in tests[1..] by {
            assert tests == [tests[0]] + tests[1..];
          }
        }
      }
      WhereWhere(rows, PassesFn(c, tests[0]), rest, PassesAllFn(c, tests));
    }
  }

  /** The five tests combine by conjunction, which is commutative and
      associative: applying them as successive filters in any order (each at
      least once) gives the filtered table. */
  lemma FilterInAnyOrder(rows: seq<Row>, c: Criteria, tests: seq<Test>)
    requires forall t: Test :: t in tests
    ensures FilterInStages(rows, c, tests) == Filter(rows, c)
  {
    StagesKeepPassingRows(rows, c, tests);
    assert forall r :: PassesAllFn(c, tests)(r) == Keep(c, r) by {
      forall r ensures PassesAllFn(c, tests)(r) == Keep(c, r) {
        assert FairValueTest in tests && ZScoreTest in tests && FScoreTest in tests;
        assert MScoreTest in tests && CategoryTest in tests;
      }
    }
    WhereAgree(rows, PassesAllFn(c, tests), KeepFn(c));
  }
}
