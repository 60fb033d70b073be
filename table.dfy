/**
 The loaded table and its cleaning: the Fair Value column is turned into text,
 cleaned and converted to float, then the M-Score column is converted to
 float. Either conversion fails as a whole on the first cell that is not a
 number, and then nothing is loaded.
 */
module Table {
  import opened Wrappers
  import opened Text
  import opened Numbers

  /** A row as read from the CSV file, before cleaning: the two columns the
      cleaning step converts are still text. */
  datatype RawRow = RawRow(
    stock: string,
    fairValue: string,
    zScore: real,
    fScore: real,
    mScore: string,
    valueGeneration: string)

  /** A cleaned row: every numeric column holds a number. */
  datatype Row = Row(
    stock: string,
    fairValue: real,
    zScore: real,
    fScore: real,
    mScore: real,
    valueGeneration: string)

  datatype Column = FairValueColumn | MScoreColumn

  /** The conversion of `column` failed at row `row`, whose text is `text`. */
  datatype LoadError = NotANumber(column: Column, row: nat, text: string)

  /** The values of a column of conversions, if every conversion succeeded;
      otherwise the position of the first one that failed. */
  function Collect<T>(xs: seq<Option<T>>): (r: Result<seq<T>, nat>)
    ensures r.Ok? <==> forall i :: 0 <= i < |xs| ==> xs[i].Some?
    ensures r.Ok? ==> (|r.value| == |xs| && forall i :: 0 <= i < |xs| ==> xs[i] == Some(r.value[i]))
    ensures r.Err? ==> (r.error < |xs| && xs[r.error].None? && forall i :: 0 <= i < r.error ==> xs[i].Some?)
  {
    if xs == [] then Ok([])
    else match xs[0]
      case None => Err(0)
      case Some(x) =>
        match Collect(xs[1..])
        case Err(k) => Err(k + 1)
        case Ok(rest) => Ok([x] + rest)
  }

  /** The number the Fair Value text of `w` converts to once cleaned. */
  function FairValueOf(w: RawRow): Option<real> {
    ParseFloat(Clean(w.fairValue))
  }

  /** The number the M-Score text of `w` converts to. */
  function MScoreOf(w: RawRow): Option<real> {
    ParseFloat(w.mScore)
  }

  /** `c` is the cleaned form of `w`: same stock, scores and category, with the
      converted Fair Value and M-Score. */
  predicate CleanedFrom(w: RawRow, c: Row) {
    && c.stock == w.stock && c.zScore == w.zScore && c.fScore == w.fScore
    && c.valueGeneration == w.valueGeneration
    && FairValueOf(w) == Some(c.fairValue)
    && MScoreOf(w) == Some(c.mScore)
  }

  /** The Fair Value column after cleaning and conversion, cell by cell. */
  function FairValueCells(raw: seq<RawRow>): (r: seq<Option<real>>)
    ensures |r| == |raw| && forall i :: 0 <= i < |raw| ==> r[i] == FairValueOf(raw[i])
  {
    seq(|raw|, i requires 0 <= i < |raw| => FairValueOf(raw[i]))
  }

  /** The M-Score column after conversion, cell by cell. */
  function MScoreCells(raw: seq<RawRow>): (r: seq<Option<real>>)
    ensures |r| == |raw| && forall i :: 0 <= i < |raw| ==> r[i] == MScoreOf(raw[i])
  {
    seq(|raw|, i requires 0 <= i < |raw| => MScoreOf(raw[i]))
  }

  /** The rows after both columns have been replaced by their converted
      values. */
  function Assemble(raw: seq<RawRow>, fv: seq<real>, m: seq<real>): (rows: seq<Row>)
    requires |fv| == |raw| && |m| == |raw|
    requires forall i :: 0 <= i < |raw| ==> FairValueOf(raw[i]) == Some(fv[i]) && MScoreOf(raw[i]) == Some(m[i])
    ensures |rows| == |raw| && forall i :: 0 <= i < |raw| ==> CleanedFrom(raw[i], rows[i])
  {
    seq(|raw|, i requires 0 <= i < |raw| =>
      Row(raw[i].stock, fv[i], raw[i].zScore, raw[i].fScore, m[i], raw[i].valueGeneration))
  }

  /** The cleaning step. It succeeds exactly when every cleaned Fair Value and
      every M-Score is a number, and then every row is the cleaned form of the
      raw row at the same position. The whole Fair Value column is converted
      before the M-Score column, so a Fair Value failure is the one reported
      even when an earlier row has a bad M-Score; each failure names the first
      row of its column that does not convert. */
  function CleanTable(raw: seq<RawRow>): (r: Result<seq<Row>, LoadError>)
    ensures r.Ok? <==> forall i :: 0 <= i < |raw| ==> FairValueOf(raw[i]).Some? && MScoreOf(raw[i]).Some?
    ensures r.Ok? ==> (|r.value| == |raw| && forall i :: 0 <= i < |raw| ==> CleanedFrom(raw[i], r.value[i]))
    ensures r.Err? && r.error.column == FairValueColumn ==>
      (var k := r.error.row;
       k < |raw| && r.error.text == Clean(raw[k].fairValue) && FairValueOf(raw[k]).None?
       && forall i :: 0 <= i < k ==> FairValueOf(raw[i]).Some?)
    ensures r.Err? && r.error.column == MScoreColumn ==>
      (var k := r.error.row;
       k < |raw| && r.error.text == raw[k].mScore && MScoreOf(raw[k]).None?
       && (forall i :: 0 <= i < |raw| ==> FairValueOf(raw[i]).Some?)
       && forall i :: 0 <= i < k ==> MScoreOf(raw[i]).Some?)
  {
    match Collect(FairValueCells(raw))
    case Err(k) => Err(NotANumber(FairValueColumn, k, Clean(raw[k].fairValue)))
    case Ok(fv) =>
      match Collect(MScoreCells(raw))
      case Err(k) => Err(NotANumber(MScoreColumn, k, raw[k].mScore))
      case Ok(m) => Ok(Assemble(raw, fv, m))
  }

  /** The cleaning step is determined row by row: when every row of `rows` is
      the cleaned form of the raw row at its position, cleaning yields exactly
      `rows`. */
  lemma CleanTableRowwise(raw: seq<RawRow>, rows: seq<Row>)
    requires |rows| == |raw|
    requires forall i :: 0 <= i < |raw| ==> CleanedFrom(raw[i], rows[i])
    ensures CleanTable(raw) == Ok(rows)
  {
    var r := CleanTable(raw);
    assert r.Ok?;
    forall i | 0 <= i < |raw| ensures r.value[i] == rows[i] {
      assert CleanedFrom(raw[i], r.value[i]);
    }
    assert r.value == rows;
  }

  /** Cleaning a table twice over its Fair Value text yields the same values:
      a row whose cleaned Fair Value is re-cleaned parses to the same number. */
  lemma {:induction false} CleanTableFairValueStable(raw: seq<RawRow>)
    requires CleanTable(raw).Ok?
    ensures forall i :: 0 <= i < |raw| ==>
      ParseFloat(Clean(Clean(raw[i].fairValue))) == Some(CleanTable(raw).value[i].fairValue)
  {
    forall i | 0 <= i < |raw|
      ensures ParseFloat(Clean(Clean(raw[i].fairValue))) == Some(CleanTable(raw).value[i].fairValue)
    {
      CleanValueIdempotent(raw[i].fairValue);
    }
  }
}
