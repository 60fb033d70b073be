/**
 A worked example of the whole pipeline on two rows: stock A with Fair Value
 `+12.5`, Z-Score 1.2, F-Score 5, M-Score `0.3`, category Quality; stock B with
 Fair Value `-3.0`, Z-Score 0.9, F-Score 7, M-Score `1.1`, category Value.
 Each text lemma takes its text as a parameter pinned character by character
 rather than as a string literal, so that `LoadTwoRows` can apply it to a
 row's field or to a slice of one (`ParseOfA` reads what is left of `+12.5`
 once the `+` is gone) and the verifier reasons about the characters.
 */
module Example {
  import opened Wrappers
  import opened Text
  import opened Numbers
  import opened Table
  import opened Masks
  import opened Filters
  import opened Defaults
  import Pivot

  lemma OneDigit(d: string)
    requires |d| == 1 && IsDigit(d[0])
    ensures DigitsValue(d) == d[0] as int - '0' as int
  {
    assert d[..0] == [];
  }

  lemma TwoDigits(d: string)
    requires |d| == 2 && IsDigit(d[0]) && IsDigit(d[1])
    ensures DigitsValue(d) == (d[0] as int - '0' as int) * 10 + (d[1] as int - '0' as int)
  {
    OneDigit(d[..1]);
  }

  lemma OneFraction(f: string)
    requires |f| == 1 && IsDigit(f[0])
    ensures AllDigits(f) && FractionValue(f) == (f[0] as int - '0' as int) as real / 10.0
  {
    assert f[1..] == [];
  }

  /** Cleaning `+12.5` drops the sign. */
  lemma CleanOfA(s: string)
    requires |s| == 5 && s[0] == '+' && s[1] == '1' && s[2] == '2' && s[3] == '.' && s[4] == '5'
    ensures Clean(s) == s[1..]
  {
    assert Strip(s) == s by {
      StripStripped(s);
    }
    var t := s[1..];
    forall i | 0 <= i < |t| ensures t[i] != '+' {
      assert i == 0 || i == 1 || i == 2 || i == 3;
    }
    RemovePlusNoPlus(t);
    assert RemovePlus(s) == t;
  }

  /** `float("12.5")` is 12.5. */
  lemma ParseOfA(t: string)
    requires |t| == 4 && t[0] == '1' && t[1] == '2' && t[2] == '.' && t[3] == '5'
    ensures ParseFloat(t) == Some(12.5)
  {
    var w, f := t[..2], t[3..];
    assert AllDigits(w) && AllDigits(f);
    assert ParseFloat(t) == Some(DecimalValue(w, f)) by {
      assert t == w + ['.'] + f;
      DecimalFloat(w, f);
    }
    ValueOfA(w, f);
  }

  lemma ValueOfA(w: string, f: string)
    requires |w| == 2 && w[0] == '1' && w[1] == '2' && |f| == 1 && f[0] == '5'
    ensures AllDigits(w) && AllDigits(f) && DecimalValue(w, f) == 12.5
  {
    TwoDigits(w);
    OneFraction(f);
  }

  /** Cleaning `-3.0` changes nothing. */
  lemma CleanOfB(s: string)
    requires |s| == 4 && s[0] == '-' && s[1] == '3' && s[2] == '.' && s[3] == '0'
    ensures Clean(s) == s
  {
    forall i | 0 <= i < |s| ensures s[i] != '+' {
      assert i == 0 || i == 1 || i == 2 || i == 3;
    }
    RemovePlusNoPlus(s);
    StripStripped(s);
  }

  /** `float("-3.0")` is -3.0. */
  lemma ParseOfB(s: string)
    requires |s| == 4 && s[0] == '-' && s[1] == '3' && s[2] == '.' && s[3] == '0'
    ensures ParseFloat(s) == Some(-3.0)
  {
    var w, f := s[1..2], s[3..];
    OneDecimal(w, f);
    assert s == ['-'] + (w + ['.'] + f);
    NegativeDecimalFloat(w, f);
  }

  /** `float("0.3")` is 0.3. */
  lemma ParseOfMScoreA(s: string)
    requires |s| == 3 && s[0] == '0' && s[1] == '.' && s[2] == '3'
    ensures ParseFloat(s) == Some(0.3)
  {
    var w, f := s[..1], s[2..];
    OneDecimal(w, f);
    assert s == w + ['.'] + f;
    DecimalFloat(w, f);
  }

  /** `float("1.1")` is 1.1. */
  lemma ParseOfMScoreB(s: string)
    requires |s| == 3 && s[0] == '1' && s[1] == '.' && s[2] == '1'
    ensures ParseFloat(s) == Some(1.1)
  {
    var w, f := s[..1], s[2..];
    OneDecimal(w, f);
    assert s == w + ['.'] + f;
    DecimalFloat(w, f);
  }

  lemma OneDecimal(w: string, f: string)
    requires |w| == 1 && IsDigit(w[0]) && |f| == 1 && IsDigit(f[0])
    ensures AllDigits(w) && AllDigits(f)
    ensures DecimalValue(w, f) == (w[0] as int - '0' as int) as real + (f[0] as int - '0' as int) as real / 10.0
  {
    OneDigit(w);
    OneFraction(f);
  }

  const RowA := Row("A", 12.5, 1.2, 5.0, 0.3, "Quality")
  const RowB := Row("B", -3.0, 0.9, 7.0, 1.1, "Value")

  /** The cleaning step on two raw rows whose cells convert to the values of
      rows A and B. */
  lemma LoadFromValues(raw: seq<RawRow>)
    requires |raw| == 2
    requires raw[0].stock == "A" && raw[0].zScore == 1.2 && raw[0].fScore == 5.0
    requires raw[0].valueGeneration == "Quality"
    requires FairValueOf(raw[0]) == Some(12.5) && MScoreOf(raw[0]) == Some(0.3)
    requires raw[1].stock == "B" && raw[1].zScore == 0.9 && raw[1].fScore == 7.0
    requires raw[1].valueGeneration == "Value"
    requires FairValueOf(raw[1]) == Some(-3.0) && MScoreOf(raw[1]) == Some(1.1)
    ensures CleanTable(raw) == Ok([RowA, RowB])
  {
    var rows := [RowA, RowB];
    forall i | 0 <= i < 2 ensures CleanedFrom(raw[i], rows[i]) {
      assert i == 0 || i == 1;
    }
    CleanTableRowwise(raw, rows);
  }

  /** Loading the two raw rows yields rows A and B: `+12.5` is cleaned and
      converted to 12.5, `-3.0` to -3.0. */
  lemma LoadTwoRows(raw: seq<RawRow>)
    requires |raw| == 2
    requires raw[0].stock == "A" && raw[0].zScore == 1.2 && raw[0].fScore == 5.0
    requires raw[0].valueGeneration == "Quality"
    requires var s := raw[0].fairValue;
      |s| == 5 && s[0] == '+' && s[1] == '1' && s[2] == '2' && s[3] == '.' && s[4] == '5'
    requires var s := raw[0].mScore; |s| == 3 && s[0] == '0' && s[1] == '.' && s[2] == '3'
    requires raw[1].stock == "B" && raw[1].zScore == 0.9 && raw[1].fScore == 7.0
    requires raw[1].valueGeneration == "Value"
    requires var s := raw[1].fairValue; |s| == 4 && s[0] == '-' && s[1] == '3' && s[2] == '.' && s[3] == '0'
    requires var s := raw[1].mScore; |s| == 3 && s[0] == '1' && s[1] == '.' && s[2] == '1'
    ensures CleanTable(raw) == Ok([RowA, RowB])
  {
    assert FairValueOf(raw[0]) == Some(12.5) by {
      CleanOfA(raw[0].fairValue);
      ParseOfA(raw[0].fairValue[1..]);
    }
    assert FairValueOf(raw[1]) == Some(-3.0) by {
      CleanOfB(raw[1].fairValue);
      ParseOfB(raw[1].fairValue);
    }
    assert MScoreOf(raw[0]) == Some(0.3) by {
      ParseOfMScoreA(raw[0].mScore);
    }
    assert MScoreOf(raw[1]) == Some(1.1) by {
      ParseOfMScoreB(raw[1].mScore);
    }
    LoadFromValues(raw);
  }

  /** The default widget positions for rows A and B. */
  const DefaultsAB := Criteria(Range(-3.0, 12.5), Range(0.9, 1.2), IntRange(5, 7), Range(0.3, 1.1), ["Quality", "Value"])

  lemma MinMaxOfPair(x: real, y: real)
    ensures MinOf([x, y]) == (if y < x then y else x)
    ensures MaxOf([x, y]) == (if y > x then y else x)
  {
    assert [x, y][..1] == [x];
  }

  lemma DistinctOfPair(x: string, y: string)
    requires x != y
    ensures Distinct([x, y]) == [x, y]
  {
    assert [x, y][..1] == [x] && [x][..0] == [];
    assert Distinct([x]) == [x];
    assert [x] + [y] == [x, y];
  }

  /** On rows A and B every slider spans the two rows' values and both
      categories are selected. */
  lemma DefaultsOfTwoRows()
    ensures DefaultCriteria([RowA, RowB]) == Some(DefaultsAB)
  {
    var rows := [RowA, RowB];
    assert FairValues(rows) == [12.5, -3.0];
    assert ZScores(rows) == [1.2, 0.9];
    assert FScores(rows) == [5.0, 7.0];
    assert MScores(rows) == [0.3, 1.1];
    assert Categories(rows) == ["Quality", "Value"];
    MinMaxOfPair(12.5, -3.0);
    MinMaxOfPair(1.2, 0.9);
    MinMaxOfPair(5.0, 7.0);
    MinMaxOfPair(0.3, 1.1);
    assert Trunc(5.0) == 5 && Trunc(7.0) == 7;
    DistinctOfPair("Quality", "Value");
  }

  /** A filter that keeps A and rejects B leaves exactly A. */
  lemma KeepOnlyA(c: Criteria)
    requires Keep(c, RowA) && !Keep(c, RowB)
    ensures Filter([RowA, RowB], c) == [RowA]
  {
    var rows := [RowA, RowB];
    assert MaskOf(rows, KeepFn(c)) == [true, false];
    assert rows[..1] == [RowA] && rows[..1][..0] == [];
  }

  /** On rows A and B the defaults keep both rows; narrowing the Fair Value
      range to [0, 20], or selecting only the Quality category, or both,
      leaves exactly A. */
  lemma FilterTwoRows()
    ensures Filter([RowA, RowB], DefaultsAB) == [RowA, RowB]
    ensures Filter([RowA, RowB], DefaultsAB.(fairValue := Range(0.0, 20.0))) == [RowA]
    ensures Filter([RowA, RowB], DefaultsAB.(categories := ["Quality"])) == [RowA]
    ensures Filter([RowA, RowB], DefaultsAB.(fairValue := Range(0.0, 20.0), categories := ["Quality"])) == [RowA]
  {
    assert Filter([RowA, RowB], DefaultsAB) == [RowA, RowB] by {
      assert IsWhole(5.0) && IsWhole(7.0);
      DefaultsOfTwoRows();
      DefaultsKeepEveryRow([RowA, RowB]);
    }
    assert "Quality" != "Value";
    KeepOnlyA(DefaultsAB.(fairValue := Range(0.0, 20.0)));
    KeepOnlyA(DefaultsAB.(categories := ["Quality"]));
    KeepOnlyA(DefaultsAB.(fairValue := Range(0.0, 20.0), categories := ["Quality"]));
  }

  /** Stocks A and B fill one cell each of the heatmap, with their M-Scores;
      the other two cells are blank. */
  lemma PivotTwoRows()
    ensures Pivot.Pivot([RowA, RowB]).Ok?
    ensures var p := Pivot.Pivot([RowA, RowB]).value;
      && Pivot.Cell(p, "A", "Quality") == Some(0.3) && Pivot.Cell(p, "B", "Value") == Some(1.1)
      && Pivot.Cell(p, "A", "Value") == None && Pivot.Cell(p, "B", "Quality") == None
  {
    var rows := [RowA, RowB];
    assert "A" != "B" && "Quality" != "Value";
    assert rows[..1] == [RowA] && [RowA][..0] == [];
    assert Pivot.Cells([RowA]) == Ok(map[("A", "Quality") := 0.3]);
    assert Pivot.Cells(rows) == Ok(map[("A", "Quality") := 0.3, ("B", "Value") := 1.1]);
    Pivot.CellsFail(rows);
  }
}
