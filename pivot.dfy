/**
 The heatmap's data: the filtered table reshaped into a Stock by Value
 Generation grid of M-Scores. Each (Stock, Value Generation) pair may occur at
 most once; a repeated pair is an error, as no way of combining two M-Scores
 is defined. A pair that occurs in no row is a blank cell.
 */
module Pivot {
  import opened Wrappers
  import opened Table

  /** Two rows share the (Stock, Value Generation) pair. */
  datatype PivotError = DuplicateEntry(stock: string, valueGeneration: string)

  /** Row labels, column labels, and the filled cells keyed by (row, column). */
  datatype PivotTable = PivotTable(
    index: set<string>,
    columns: set<string>,
    cells: map<(string, string), real>)

  function Key(r: Row): (string, string) {
    (r.stock, r.valueGeneration)
  }

  /** No two rows share a key. */
  predicate UniqueKeys(rows: seq<Row>) {
    forall i, j :: 0 <= i < j < |rows| ==> Key(rows[i]) != Key(rows[j])
  }

  /** Two rows have the key the error names. */
  predicate SharedKey(rows: seq<Row>, e: PivotError) {
    exists i, j :: 0 <= i < j < |rows| && Key(rows[i]) == Key(rows[j]) == (e.stock, e.valueGeneration)
  }

  /** Some row has key `k`. */
  predicate HasKey(rows: seq<Row>, k: (string, string)) {
    exists i :: 0 <= i < |rows| && Key(rows[i]) == k
  }

  /** The cells of the grid, or the last key found repeated when the rows are
      taken in order. */
  function Cells(rows: seq<Row>): Result<map<(string, string), real>, PivotError> {
    if rows == [] then Ok(map[])
    else
      var n := |rows| - 1;
      match Cells(rows[..n])
      case Err(e) => Err(e)
      case Ok(m) =>
        var k := Key(rows[n]);
        if k in m then Err(DuplicateEntry(k.0, k.1)) else Ok(m[k := rows[n].mScore])
  }

  /** A successful build of the cells extends the cells of all rows but the
      last with the last row's key, which is new. */
  lemma CellsStep(rows: seq<Row>)
    requires rows != [] && Cells(rows).Ok?
    ensures var init := rows[..|rows| - 1];
      && Cells(init).Ok?
      && Key(rows[|rows| - 1]) !in Cells(init).value
      && Cells(rows).value == Cells(init).value[Key(rows[|rows| - 1]) := rows[|rows| - 1].mScore]
  {
  }

  /** When the cells are built, they are keyed by exactly the rows' keys. */
  lemma {:induction false} CellsKeys(rows: seq<Row>)
    requires Cells(rows).Ok?
    ensures forall k :: k in Cells(rows).value <==> HasKey(rows, k)
  {
    if rows != [] {
      var n := |rows| - 1;
      var init := rows[..n];
      CellsStep(rows);
      CellsKeys(init);
      var k := Key(rows[n]);
      forall k' ensures k' in Cells(rows).value <==> HasKey(rows, k') {
        if k' in Cells(init).value && k' != k {
          var i :| 0 <= i < n && Key(init[i]) == k';
          assert Key(rows[i]) == k';
        }
        if HasKey(rows, k') && k' != k {
          var i :| 0 <= i < |rows| && Key(rows[i]) == k';
          assert i < n && Key(init[i]) == k';
        }
      }
    }
  }

  /** When the cells are built, the cell of each row's key holds that row's
      M-Score. */
  lemma {:induction false} CellsValues(rows: seq<Row>)
    requires Cells(rows).Ok?
    ensures forall i :: 0 <= i < |rows| ==>
      Key(rows[i]) in Cells(rows).value && Cells(rows).value[Key(rows[i])] == rows[i].mScore
  {
    if rows != [] {
      var n := |rows| - 1;
      var init := rows[..n];
      CellsStep(rows);
      CellsValues(init);
      forall i | 0 <= i < n ensures Key(rows[i]) in Cells(init).value && Cells(init).value[Key(rows[i])] == rows[i].mScore {
        assert init[i] == rows[i];
      }
    }
  }

  /** Building the cells succeeds exactly when the keys are unique, and a
      failure names a key that two rows share. */
  lemma {:induction false} CellsFail(rows: seq<Row>)
    ensures Cells(rows).Ok? <==> UniqueKeys(rows)
    ensures Cells(rows).Err? ==> SharedKey(rows, Cells(rows).error)
  {
    if rows != [] {
      var n := |rows| - 1;
      var init := rows[..n];
      CellsFail(init);
      assert forall i :: 0 <= i < n ==> init[i] == rows[i];
      var k := Key(rows[n]);
      match Cells(init)
      case Err(e) =>
        var i, j :| 0 <= i < j < n && Key(init[i]) == Key(init[j]) == (e.stock, e.valueGeneration);
        assert Key(rows[i]) == Key(rows[j]) == (e.stock, e.valueGeneration);
      case Ok(m) =>
        CellsKeys(init);
        if k in m {
          assert HasKey(init, k);
          var i :| 0 <= i < n && Key(init[i]) == k;
          assert Key(rows[i]) == Key(rows[n]) == (k.0, k.1);
        } else {
          forall i, j | 0 <= i < j < |rows| ensures Key(rows[i]) != Key(rows[j]) {
            if j < n {
              assert Key(init[i]) != Key(init[j]);
            } else {
              assert !HasKey(init, k);
              assert Key(init[i]) != k;
            }
          }
        }
    }
  }

  /** `DataFrame.pivot(index='Stock', columns='Value Generation',
      values='M-Score')`: the distinct stocks label the rows, the distinct
      categories label the columns. */
  function Pivot(rows: seq<Row>): (r: Result<PivotTable, PivotError>)
    ensures r.Ok? <==> UniqueKeys(rows)
    ensures r.Err? ==> SharedKey(rows, r.error)
    ensures r.Ok? ==>
      && (forall s :: s in r.value.index <==> exists i :: 0 <= i < |rows| && rows[i].stock == s)
      && (forall v :: v in r.value.columns <==> exists i :: 0 <= i < |rows| && rows[i].valueGeneration == v)
  {
    CellsFail(rows);
    match Cells(rows)
    case Err(e) => Err(e)
    case Ok(m) =>
      Ok(PivotTable(
        set i | 0 <= i < |rows| :: rows[i].stock,
        set i | 0 <= i < |rows| :: rows[i].valueGeneration,
        m))
  }

  /** The heatmap cell at (stock, category): the M-Score, or blank. */
  function Cell(p: PivotTable, stock: string, category: string): (r: Option<real>)
    ensures r.Some? <==> (stock, category) in p.cells
    ensures r.Some? ==> r.value == p.cells[(stock, category)]
  {
    if (stock, category) in p.cells then Some(p.cells[(stock, category)]) else None
  }

  /** On success, the cell of every row's key holds that row's M-Score, a
      (stock, category) combination that no row has is blank, and every filled
      cell lies in the grid spanned by the row and column labels. */
  lemma PivotCells(rows: seq<Row>)
    requires UniqueKeys(rows)
    ensures var p := Pivot(rows).value;
      && (forall i :: 0 <= i < |rows| ==> Cell(p, rows[i].stock, rows[i].valueGeneration) == Some(rows[i].mScore))
      && (forall s, v :: (forall i :: 0 <= i < |rows| ==> Key(rows[i]) != (s, v)) ==> Cell(p, s, v) == None)
      && (forall k :: k in p.cells ==> k.0 in p.index && k.1 in p.columns)
  {
    var p := Pivot(rows).value;
    CellsFail(rows);
    CellsKeys(rows);
    CellsValues(rows);
    assert p.cells == Cells(rows).value;
    forall s, v | forall i :: 0 <= i < |rows| ==> Key(rows[i]) != (s, v)
      ensures Cell(p, s, v) == None
    {
      assert !HasKey(rows, (s, v));
    }
    forall k | k in p.cells ensures k.0 in p.index && k.1 in p.columns {
      assert HasKey(rows, k);
      var i :| 0 <= i < |rows| && Key(rows[i]) == k;
      assert rows[i].stock == k.0 && rows[i].valueGeneration == k.1;
    }
  }
}
