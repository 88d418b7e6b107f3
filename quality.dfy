/** The data-quality reports of scripts/data_quality_checker.py: missing values,
    dtypes, duplicate rows, negative values and IQR outliers. */
module QualityChecker {
  import opened Wrappers
  import opened Seqs
  import opened Stats
  import opened Frame

  // ---------------------------------------------------------------- missing values

  /** `isnull()` of one column. */
  function MissingMask(c: Cells): (m: seq<bool>)
    ensures |m| == Length(c)
    ensures forall i :: 0 <= i < |m| ==> (m[i] <==> CellAt(c, i).None?)
  {
    seq(Length(c), i requires 0 <= i < Length(c) => CellAt(c, i).None?)
  }

  /** One row of the missing-value report. */
  datatype MissingReport = MissingReport(column: string, missingCount: nat, missingPercentage: Option<real>)

  /** p is count out of rows, as a percentage. */
  predicate IsPercentage(p: real, count: nat, rows: nat)
  {
    p * rows as real == count as real * 100.0 && 0.0 <= p <= 100.0
  }

  /** `count / rows * 100`. */
  function Percentage(count: nat, rows: nat): (p: real)
    requires 0 < rows && count <= rows
    ensures IsPercentage(p, count, rows)
  {
    var f := count as real / rows as real;
    assert f * rows as real == count as real;
    assert 0.0 <= f <= 1.0 by {
      if f > 1.0 {
        MulStrict(1.0, f, rows as real);
      }
    }
    assert f * 100.0 * rows as real == f * rows as real * 100.0;
    f * 100.0
  }

  /** The report row of one column of a table with `rows` rows. */
  function MissingRow(c: Column, rows: nat): (r: MissingReport)
    requires Length(c.cells) == rows
    ensures r.column == c.name
    ensures r.missingCount == CountTrue(MissingMask(c.cells)) <= rows
    ensures r.missingPercentage.Some? <==> rows > 0
    ensures r.missingPercentage.Some? ==> IsPercentage(r.missingPercentage.value, r.missingCount, rows)
  {
    var count := CountTrue(MissingMask(c.cells));
    if rows == 0 then MissingReport(c.name, count, None)
    else MissingReport(c.name, count, Some(Percentage(count, rows)))
  }

  /** `isnull().sum()` and `isnull().mean() * 100` per column, in column order; the
      mean over no rows is NaN, so on an empty table every percentage is None. */
  function CheckMissingValues(t: Table): (r: seq<MissingReport>)
    requires WellFormed(t)
    ensures |r| == |t.columns|
    ensures forall c :: 0 <= c < |r| ==>
      && r[c].column == t.columns[c].name
      && r[c].missingCount == CountTrue(MissingMask(t.columns[c].cells))
      && r[c].missingCount <= |t.index|
      && (r[c].missingPercentage.Some? <==> |t.index| > 0)
    ensures forall c :: 0 <= c < |r| && r[c].missingPercentage.Some? ==>
      IsPercentage(r[c].missingPercentage.value, r[c].missingCount, |t.index|)
  {
    seq(|t.columns|, c requires 0 <= c < |t.columns| => MissingRow(t.columns[c], |t.index|))
  }

  /** The missing count is the number of positions holding a missing cell. */
  lemma MissingCountCountsMissingCells(t: Table, c: nat)
    requires WellFormed(t) && c < |t.columns|
    ensures var m := MissingMask(t.columns[c].cells);
      && (forall i :: 0 <= i < |t.index| ==> (i in Kept(m) <==> CellAt(t.columns[c].cells, i).None?))
      && (forall j, k :: 0 <= j < k < |Kept(m)| ==> Kept(m)[j] != Kept(m)[k])
  {
  }

  // ---------------------------------------------------------------- dtypes

  /** One row of the dtype report. */
  datatype TypeRecord = TypeRecord(column: string, actualType: DType, expectedType: DType, matches: bool)

  /** The record the source builds for one key: the expected dtype it was given is
      replaced by the column's own dtype before the comparison. */
  function AsWrittenRecord(t: Table, name: string, given: DType): (r: TypeRecord)
    requires Find(t.columns, name).Some?
    ensures r.column == name && r.actualType == DTypeOf(t.columns[Find(t.columns, name).value].cells)
  {
    var actual := DTypeOf(t.columns[Find(t.columns, name).value].cells);
    var expected := actual;
    TypeRecord(name, actual, expected, actual == expected)
  }

  /** The dtype report as the source computes it: one record per key in mapping
      order, or KeyError at the first key that is not a column. */
  function DataTypeReport(t: Table, expectedTypes: seq<(string, DType)>): (r: Result<seq<TypeRecord>, Error>)
    ensures var k := FirstAbsent(t, KeysOf(expectedTypes));
      && (r.Ok? <==> k == |expectedTypes|)
      && (r.Err? ==> r.error == KeyError([expectedTypes[k].0]))
    ensures r.Ok? ==> |r.value| == |expectedTypes| && forall j :: 0 <= j < |expectedTypes| ==>
      && r.value[j].column == expectedTypes[j].0
      && r.value[j].actualType == DTypeOf(t.columns[Find(t.columns, expectedTypes[j].0).value].cells)
      && r.value[j].expectedType == r.value[j].actualType
      && r.value[j].matches
  {
    var keys := KeysOf(expectedTypes);
    var k := FirstAbsent(t, keys);
    if k < |keys| then Err(KeyError([keys[k]]))
    else Ok(seq(|expectedTypes|, j requires 0 <= j < |expectedTypes| =>
      AsWrittenRecord(t, expectedTypes[j].0, expectedTypes[j].1)))
  }

  function KeysOf(m: seq<(string, DType)>): (r: seq<string>)
    ensures |r| == |m| && forall j :: 0 <= j < |m| ==> r[j] == m[j].0
  {
    seq(|m|, j requires 0 <= j < |m| => m[j].0)
  }

  /** check_data_types: a loop that appends one record per key. */
  method CheckDataTypes(t: Table, expectedTypes: seq<(string, DType)>) returns (r: Result<seq<TypeRecord>, Error>)
    ensures r == DataTypeReport(t, expectedTypes)
  {
    var results: seq<TypeRecord> := [];
    for k := 0 to |expectedTypes|
      invariant forall j :: 0 <= j < k ==> Find(t.columns, expectedTypes[j].0).Some?
      invariant |results| == k
      invariant forall j :: 0 <= j < k ==> results[j] == AsWrittenRecord(t, expectedTypes[j].0, expectedTypes[j].1)
    {
      var (name, dtype) := expectedTypes[k];
      var c := Find(t.columns, name);
      if c.None? {
        FirstAbsentIs(t, KeysOf(expectedTypes), k);
        assert KeysOf(expectedTypes)[k] == name;
        return Err(KeyError([name]));
      }
      var actual := DTypeOf(t.columns[c.value].cells);
      dtype := actual;
      results := results + [TypeRecord(name, actual, dtype, actual == dtype)];
    }
    FirstAbsentIs(t, KeysOf(expectedTypes), |expectedTypes|);
    assert results == seq(|expectedTypes|, j requires 0 <= j < |expectedTypes| =>
      AsWrittenRecord(t, expectedTypes[j].0, expectedTypes[j].1));
    r := Ok(results);
  }

  lemma {:induction false} FirstAbsentIs(t: Table, names: seq<string>, k: nat)
    requires k <= |names|
    requires forall j :: 0 <= j < k ==> Find(t.columns, names[j]).Some?
    requires k < |names| ==> Find(t.columns, names[k]).None?
    ensures FirstAbsent(t, names) == k
  {
    if k > 0 {
      FirstAbsentIs(t, names[1..], k - 1);
    }
  }

  /** The as-written report does not depend on the expected dtypes at all. */
  lemma ExpectedTypesAreIgnored(t: Table, e1: seq<(string, DType)>, e2: seq<(string, DType)>)
    requires KeysOf(e1) == KeysOf(e2)
    ensures DataTypeReport(t, e1) == DataTypeReport(t, e2)
  {
    var k := FirstAbsent(t, KeysOf(e1));
    assert |e1| == |e2|;
    if k == |e1| {
      var s1 := seq(|e1|, j requires 0 <= j < |e1| => AsWrittenRecord(t, e1[j].0, e1[j].1));
      var s2 := seq(|e2|, j requires 0 <= j < |e2| => AsWrittenRecord(t, e2[j].0, e2[j].1));
      forall j | 0 <= j < |e1| ensures s1[j] == s2[j] {
        assert KeysOf(e1)[j] == KeysOf(e2)[j];
      }
      assert s1 == s2;
    } else {
      assert KeysOf(e1)[k] == KeysOf(e2)[k];
    }
  }

  /** The report the function's documentation describes: the expected dtype is the
      one given, and Match says whether the actual dtype equals it. */
  function IntendedDataTypeReport(t: Table, expectedTypes: seq<(string, DType)>): (r: Result<seq<TypeRecord>, Error>)
    ensures var k := FirstAbsent(t, KeysOf(expectedTypes));
      && (r.Ok? <==> k == |expectedTypes|)
      && (r.Err? ==> r.error == KeyError([expectedTypes[k].0]))
    ensures r.Ok? ==> |r.value| == |expectedTypes| && forall j :: 0 <= j < |expectedTypes| ==>
      && r.value[j].column == expectedTypes[j].0
      && r.value[j].actualType == DTypeOf(t.columns[Find(t.columns, expectedTypes[j].0).value].cells)
      && r.value[j].expectedType == expectedTypes[j].1
      && (r.value[j].matches <==> r.value[j].actualType == expectedTypes[j].1)
  {
    var keys := KeysOf(expectedTypes);
    var k := FirstAbsent(t, keys);
    if k < |keys| then Err(KeyError([keys[k]]))
    else Ok(seq(|expectedTypes|, j requires 0 <= j < |expectedTypes| =>
      IntendedRecord(t, expectedTypes[j].0, expectedTypes[j].1)))
  }

  function IntendedRecord(t: Table, name: string, expected: DType): TypeRecord
    requires Find(t.columns, name).Some?
  {
    var actual := DTypeOf(t.columns[Find(t.columns, name).value].cells);
    TypeRecord(name, actual, expected, actual == expected)
  }

  /** A float column checked against an expected `object` dtype: the source reports a
      match, the intended check reports a mismatch. */
  lemma DataTypeMismatchGoesUnreported()
    ensures var t := Table([0], [Column("WS", Numbers([Some(1.0)]))]);
      && DataTypeReport(t, [("WS", Object)]) == Ok([TypeRecord("WS", Float64, Float64, true)])
      && IntendedDataTypeReport(t, [("WS", Object)]) == Ok([TypeRecord("WS", Float64, Object, false)])
  {
    var t := Table([0], [Column("WS", Numbers([Some(1.0)]))]);
    var e := [("WS", Object)];
    assert Find(t.columns, "WS") == Some(0);
    assert KeysOf(e) == ["WS"];
    FirstAbsentIs(t, KeysOf(e), 1);
    assert AsWrittenRecord(t, "WS", Object) == TypeRecord("WS", Float64, Float64, true);
    assert seq(|e|, j requires 0 <= j < |e| => AsWrittenRecord(t, e[j].0, e[j].1))
      == [TypeRecord("WS", Float64, Float64, true)];
    assert IntendedRecord(t, "WS", Object) == TypeRecord("WS", Float64, Object, false);
    assert seq(|e|, j requires 0 <= j < |e| => IntendedRecord(t, e[j].0, e[j].1))
      == [TypeRecord("WS", Float64, Object, false)];
  }

  // ---------------------------------------------------------------- duplicates

  const DuplicatesFound: string := "Duplicate rows found in the DataFrame."
  const NoDuplicatesFound: string := "No duplicate rows found in the DataFrame."

  /** `duplicated().any()`, reported as a message: some row equals an earlier row in
      every column, missing cells equal to missing cells. pandas treats a frame without
      columns as empty and finds no duplicates in it. */
  function CheckDuplicates(t: Table): (msg: string)
    requires WellFormed(t)
    ensures msg == DuplicatesFound <==>
      |t.columns| > 0 && exists i, j :: 0 <= j < i < |t.index| && Row(t, j) == Row(t, i)
    ensures msg != DuplicatesFound ==> msg == NoDuplicatesFound
    ensures |t.index| <= 1 || |t.columns| == 0 ==> msg == NoDuplicatesFound
  {
    if |t.columns| == 0 then NoDuplicatesFound
    else
      var d := Duplicated(AllRows(t));
      if exists i :: 0 <= i < |d| && d[i] then DuplicatesFound else NoDuplicatesFound
  }

  // ---------------------------------------------------------------- negative values

  /** `lt(0)` of a numeric column: a missing cell is not below zero. */
  function NegativeMask(xs: seq<Option<real>>): (m: seq<bool>)
    ensures |m| == |xs|
    ensures forall i :: 0 <= i < |xs| ==> (m[i] <==> xs[i].Some? && xs[i].value < 0.0)
  {
    seq(|xs|, i requires 0 <= i < |xs| => xs[i].Some? && xs[i].value < 0.0)
  }

  function NegativeCount(xs: seq<Option<real>>): nat
  {
    CountTrue(NegativeMask(xs))
  }

  /** A column has no negative count exactly when every present value is at least zero. */
  lemma NegativeCountZero(xs: seq<Option<real>>)
    ensures NegativeCount(xs) <= |xs|
    ensures NegativeCount(xs) == 0 <==> forall i :: 0 <= i < |xs| && xs[i].Some? ==> xs[i].value >= 0.0
  {
    var m := NegativeMask(xs);
    if NegativeCount(xs) == 0 {
      forall i | 0 <= i < |xs| && xs[i].Some? ensures xs[i].value >= 0.0 {
        assert m[i] ==> i in Kept(m);
      }
    } else {
      var i := Kept(m)[0];
      assert m[i];
    }
  }

  /** `select_dtypes(include=['int64', 'float64'])`. */
  function NumericMask(cols: seq<Column>): (m: seq<bool>)
    ensures |m| == |cols|
    ensures forall c :: 0 <= c < |cols| ==> (m[c] <==> cols[c].cells.Numbers?)
  {
    seq(|cols|, c requires 0 <= c < |cols| => cols[c].cells.Numbers?)
  }

  function NegativeEntry(c: Column): (string, nat)
  {
    (c.name, if c.cells.Numbers? then NegativeCount(c.cells.xs) else 0)
  }

  /** The count of values below zero for every numeric column, in column order;
      text and categorical columns do not appear. */
  function CheckNegativeValues(t: Table): (r: seq<(string, nat)>)
    ensures |r| == CountTrue(NumericMask(t.columns))
    ensures forall j :: 0 <= j < |r| ==>
      var c := Kept(NumericMask(t.columns))[j];
      t.columns[c].cells.Numbers? && r[j] == (t.columns[c].name, NegativeCount(t.columns[c].cells.xs))
    ensures forall c :: 0 <= c < |t.columns| && t.columns[c].cells.Numbers? ==>
      (t.columns[c].name, NegativeCount(t.columns[c].cells.xs)) in r
  {
    var entries := seq(|t.columns|, c requires 0 <= c < |t.columns| => NegativeEntry(t.columns[c]));
    var m := NumericMask(t.columns);
    FilterAt(entries, m);
    var r := Filter(entries, m);
    assert forall c :: 0 <= c < |t.columns| && t.columns[c].cells.Numbers? ==>
      (t.columns[c].name, NegativeCount(t.columns[c].cells.xs)) in r by {
      forall c | 0 <= c < |t.columns| && t.columns[c].cells.Numbers?
        ensures (t.columns[c].name, NegativeCount(t.columns[c].cells.xs)) in r
      {
        assert m[c] && c in Kept(m);
        var j :| 0 <= j < |Kept(m)| && Kept(m)[j] == c;
        assert r[j] == entries[c];
      }
    }
    r
  }

  // ---------------------------------------------------------------- IQR outliers

  /** `(df[col] < lower_bound) | (df[col] > upper_bound)`: comparisons with NaN are
      false, so missing cells, and every cell of a column without fences, are not outliers. */
  function OutlierMask(xs: seq<Option<real>>): (m: seq<bool>)
    ensures |m| == |xs|
    ensures forall i :: 0 <= i < |xs| ==>
      (m[i] <==> xs[i].Some? && IqrBounds(xs).Some? &&
                 (xs[i].value < IqrBounds(xs).value.lower || xs[i].value > IqrBounds(xs).value.upper))
  {
    match IqrBounds(xs)
    case None => seq(|xs|, i => false)
    case Some(b) => seq(|xs|, i requires 0 <= i < |xs| => Outside(xs[i], b))
  }

  predicate Outside(x: Option<real>, b: Bounds)
  {
    x.Some? && (x.value < b.lower || x.value > b.upper)
  }

  /** `len(df[mask])`: the number of rows outside the fences. */
  function OutlierCount(xs: seq<Option<real>>): (n: nat)
    ensures n <= |xs|
  {
    CountTrue(OutlierMask(xs))
  }

  /** detect_outliers_iqr: a loop that records each requested column's outlier count. */
  method DetectOutliersIqr(t: Table, columns: seq<string>) returns (r: Result<map<string, nat>, Error>)
    requires WellFormed(t)
    ensures var k := FirstNonNumeric(t, columns);
      && (r.Ok? <==> k == |columns|)
      && (r.Err? ==> r.error == NumericColumn(t, columns[k]).error)
    ensures r.Ok? ==> forall name :: name in r.value <==> name in columns
    ensures r.Ok? ==> forall name :: name in r.value ==> CountOf(t, name, r.value[name])
  {
    var summary: map<string, nat> := map[];
    for k := 0 to |columns|
      invariant k <= FirstNonNumeric(t, columns)
      invariant KeysAre(columns[..k], summary)
      invariant CountsOf(t, summary)
    {
      var col := NumericColumn(t, columns[k]);
      if col.Err? {
        return Err(col.error);
      }
      NextNumeric(t, columns, k);
      KeysStep(columns, k, summary, OutlierCount(col.value));
      NumericCountOf(t, columns[k]);
      CountsStep(t, summary, columns[k], OutlierCount(col.value));
      summary := summary[columns[k] := OutlierCount(col.value)];
    }
    assert columns[..|columns|] == columns;
    r := Ok(summary);
  }

  /** The keys of `summary` are exactly `names`. */
  ghost predicate KeysAre(names: seq<string>, summary: map<string, nat>)
  {
    forall name :: name in summary <==> name in names
  }

  /** Every entry of `summary` is the outlier count of its column. */
  ghost predicate CountsOf(t: Table, summary: map<string, nat>)
  {
    forall name :: name in summary ==> CountOf(t, name, summary[name])
  }

  lemma KeysStep(names: seq<string>, k: nat, summary: map<string, nat>, n: nat)
    requires k < |names| && KeysAre(names[..k], summary)
    ensures KeysAre(names[..k + 1], summary[names[k] := n])
  {
    assert names[..k + 1] == names[..k] + [names[k]];
  }

  lemma CountsStep(t: Table, summary: map<string, nat>, name: string, n: nat)
    requires CountsOf(t, summary) && CountOf(t, name, n)
    ensures CountsOf(t, summary[name := n])
  {
  }

  lemma NumericCountOf(t: Table, name: string)
    requires WellFormed(t) && NumericColumn(t, name).Ok?
    ensures CountOf(t, name, OutlierCount(NumericColumn(t, name).value))
  {
    assert Length(t.columns[Find(t.columns, name).value].cells) == |t.index|;
  }

  /** `n` is the outlier count of the numeric column `name`, and at most the row count. */
  ghost predicate CountOf(t: Table, name: string, n: nat)
  {
    && NumericColumn(t, name).Ok?
    && n == OutlierCount(NumericColumn(t, name).value)
    && n <= |t.index|
  }
}
