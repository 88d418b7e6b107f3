/** The cleaning and transformation functions of scripts/data_clean.py. */
module DataClean {
  import opened Wrappers
  import opened Seqs
  import opened Stats
  import opened Frame
  import QualityChecker

  // ---------------------------------------------------------------- IQR treatment

  /** treat_outliers_with_mean: every value strictly outside the fences becomes the
      mean of the untreated column; every other cell, missing ones included, is kept. */
  function TreatOutliersWithMean(xs: seq<Option<real>>): (r: seq<Option<real>>)
    ensures |r| == |xs|
    ensures forall i :: 0 <= i < |xs| ==>
      r[i] == if QualityChecker.OutlierMask(xs)[i] then ColumnMean(xs) else xs[i]
    ensures forall i :: 0 <= i < |xs| ==> (r[i].Some? <==> xs[i].Some?)
    ensures forall i :: 0 <= i < |xs| && xs[i].Some? ==> IqrBounds(xs).Some?
    ensures forall i :: 0 <= i < |xs| && r[i].Some? ==>
      var b := IqrBounds(xs).value;
      (b.lower <= r[i].value <= b.upper) || r[i] == ColumnMean(xs)
  {
    var mean := ColumnMean(xs);
    var mask := QualityChecker.OutlierMask(xs);
    PresentNonEmpty(xs);
    seq(|xs|, i requires 0 <= i < |xs| => if mask[i] then mean else xs[i])
  }

  /** No value between the quartiles, and no value on a fence, is ever replaced. */
  lemma InterquartileValuesKept(xs: seq<Option<real>>, i: nat)
    requires i < |xs| && xs[i].Some? && IqrBounds(xs).Some?
    requires IqrBounds(xs).value.lower <= xs[i].value <= IqrBounds(xs).value.upper
    ensures TreatOutliersWithMean(xs)[i] == xs[i]
    ensures IqrBounds(xs).value.q1 <= xs[i].value <= IqrBounds(xs).value.q3 ==>
      TreatOutliersWithMean(xs)[i] == xs[i]
  {
  }

  /** With a zero interquartile range every value other than Q1 (= Q3) is replaced by the mean. */
  lemma ZeroIqrReplacesAllButQuartile(xs: seq<Option<real>>)
    requires IqrBounds(xs).Some? && IqrBounds(xs).value.q1 == IqrBounds(xs).value.q3
    ensures forall i :: 0 <= i < |xs| && xs[i].Some? ==>
      TreatOutliersWithMean(xs)[i] ==
        if xs[i].value == IqrBounds(xs).value.q1 then xs[i] else ColumnMean(xs)
  {
    var b := IqrBounds(xs).value;
    assert b.lower == b.q1 == b.upper;
  }

  /** A column whose present values all equal k comes back unchanged. */
  lemma ConstantColumnUnchanged(xs: seq<Option<real>>, k: real)
    requires forall i :: 0 <= i < |xs| && xs[i].Some? ==> xs[i].value == k
    ensures TreatOutliersWithMean(xs) == xs
  {
    if IqrBounds(xs).Some? {
      PresentMembers(xs);
      assert forall x :: x in Present(xs) ==> k <= x <= k;
      QuartilesInRange(xs, k, k);
    }
  }

  /** detect_outliers_iqr counts exactly the cells treat_outliers_with_mean replaces:
      the counted positions take the column mean and every other cell is kept. */
  lemma DetectCountsReplacedCells(xs: seq<Option<real>>)
    ensures var counted := Kept(QualityChecker.OutlierMask(xs));
      && QualityChecker.OutlierCount(xs) == |counted|
      && (forall i :: i in counted ==> i < |xs| && TreatOutliersWithMean(xs)[i] == ColumnMean(xs))
      && (forall i :: 0 <= i < |xs| && i !in counted ==> TreatOutliersWithMean(xs)[i] == xs[i])
      && (forall i :: 0 <= i < |xs| && IqrBounds(xs).Some? && QualityChecker.Outside(xs[i], IqrBounds(xs).value) ==>
            i in counted)
  {
  }

  // ---------------------------------------------------------------- negative clamp

  /** Python's max(x, 0): the first argument unless the second is greater. */
  function PyMax(a: real, b: real): real
  {
    if b > a then b else a
  }

  /** `apply(lambda x: max(x, 0))` on one column; max(NaN, 0) is NaN. */
  function ClampColumn(xs: seq<Option<real>>): (r: seq<Option<real>>)
    ensures |r| == |xs|
    ensures forall i :: 0 <= i < |xs| ==> (r[i].Some? <==> xs[i].Some?)
    ensures forall i :: 0 <= i < |xs| && xs[i].Some? ==>
      && r[i].value >= 0.0
      && (xs[i].value >= 0.0 ==> r[i] == xs[i])
      && (xs[i].value < 0.0 ==> r[i] == Some(0.0))
  {
    seq(|xs|, i requires 0 <= i < |xs| => if xs[i].Some? then Some(PyMax(xs[i].value, 0.0)) else None)
  }

  /** Clamping is idempotent. */
  lemma ClampIdempotent(xs: seq<Option<real>>)
    ensures ClampColumn(ClampColumn(xs)) == ClampColumn(xs)
  {
  }

  /** After clamping, check_negative_values counts nothing in the column. */
  lemma ClampedColumnHasNoNegatives(xs: seq<Option<real>>)
    ensures QualityChecker.NegativeCount(ClampColumn(xs)) == 0
  {
    QualityChecker.NegativeCountZero(ClampColumn(xs));
  }

  /** [-5, 0, 5] clamps to [0, 0, 5]; a missing cell stays missing. */
  lemma ClampExample()
    ensures ClampColumn([Some(-5.0), Some(0.0), Some(5.0), None]) == [Some(0.0), Some(0.0), Some(5.0), None]
  {
  }

  function ClampIfListed(c: Column, names: seq<string>): Column
  {
    if c.name in names && c.cells.Numbers? then Column(c.name, Numbers(ClampColumn(c.cells.xs))) else c
  }

  /** The table after clamping every listed numeric column. */
  function ClampListed(t: Table, names: seq<string>): (r: Table)
    ensures r.index == t.index && |r.columns| == |t.columns|
    ensures forall c :: 0 <= c < |t.columns| ==>
      && r.columns[c].name == t.columns[c].name
      && DTypeOf(r.columns[c].cells) == DTypeOf(t.columns[c].cells)
      && Length(r.columns[c].cells) == Length(t.columns[c].cells)
    ensures forall c :: 0 <= c < |t.columns| && t.columns[c].name !in names ==> r.columns[c] == t.columns[c]
    ensures forall c :: 0 <= c < |t.columns| && !t.columns[c].cells.Numbers? ==> r.columns[c] == t.columns[c]
    ensures forall c :: 0 <= c < |t.columns| && t.columns[c].name in names && t.columns[c].cells.Numbers? ==>
      r.columns[c].cells == Numbers(ClampColumn(t.columns[c].cells.xs))
    ensures WellFormed(t) ==> WellFormed(r)
  {
    Table(t.index, seq(|t.columns|, c requires 0 <= c < |t.columns| => ClampIfListed(t.columns[c], names)))
  }

  /** Clamping a table twice by the same list is clamping it once, and leaves every
      listed numeric column without a negative value. */
  lemma ClampListedIdempotent(t: Table, names: seq<string>)
    ensures ClampListed(ClampListed(t, names), names) == ClampListed(t, names)
    ensures forall c :: 0 <= c < |t.columns| && t.columns[c].name in names && t.columns[c].cells.Numbers? ==>
      QualityChecker.NegativeCount(ClampListed(t, names).columns[c].cells.xs) == 0
  {
    var once := ClampListed(t, names);
    forall c | 0 <= c < |t.columns|
      ensures ClampListed(once, names).columns[c] == once.columns[c]
    {
      if t.columns[c].name in names && t.columns[c].cells.Numbers? {
        ClampIdempotent(t.columns[c].cells.xs);
      }
    }
    assert ClampListed(once, names).columns == once.columns;
    forall c | 0 <= c < |t.columns| && t.columns[c].name in names && t.columns[c].cells.Numbers?
      ensures QualityChecker.NegativeCount(once.columns[c].cells.xs) == 0
    {
      ClampedColumnHasNoNegatives(t.columns[c].cells.xs);
    }
  }

  /** The columns `apply(lambda x: max(x, 0))` accepts: a numeric column; a column of
      any kind without rows, which `apply` returns as it is without calling the lambda;
      and a text column holding no value at all, since max(NaN, 0) is NaN. A text value
      cannot be compared with 0, and a categorical column with rows maps its string
      categories, so both raise TypeError. */
  predicate Clampable(c: Cells)
  {
    c.Numbers? || Length(c) == 0 || (c.Texts? && forall i :: 0 <= i < |c.ss| ==> c.ss[i].None?)
  }

  /** The exception `df[col].apply(...)` raises for the name, if any. */
  function ClampError(t: Table, name: string): (r: Option<Error>)
    ensures r.None? <==> Find(t.columns, name).Some? && Clampable(t.columns[Find(t.columns, name).value].cells)
    ensures Find(t.columns, name).None? ==> r == Some(KeyError([name]))
    ensures Find(t.columns, name).Some? && r.Some? ==> r == Some(TypeError(name))
  {
    match Find(t.columns, name)
    case None => Some(KeyError([name]))
    case Some(c) => if Clampable(t.columns[c].cells) then None else Some(TypeError(name))
  }

  /** The position of the first name that raises, or |names|. */
  function FirstUnclampable(t: Table, names: seq<string>): (k: nat)
    ensures k <= |names|
    ensures forall j :: 0 <= j < k ==> ClampError(t, names[j]).None?
    ensures k < |names| ==> ClampError(t, names[k]).Some?
  {
    if |names| == 0 || ClampError(t, names[0]).Some? then 0 else 1 + FirstUnclampable(t, names[1..])
  }

  /** Clamping keeps every column's kind and the cells of every non-numeric column, so
      the first name that raises on the clamped table is the first that raises on t. */
  lemma ClampListedKeepsKinds(t: Table, names: seq<string>, i: nat)
    requires i < |names| && i <= FirstUnclampable(t, names)
    ensures var cur := ClampListed(t, names[..i]);
      && Find(cur.columns, names[i]) == Find(t.columns, names[i])
      && ClampError(cur, names[i]) == ClampError(t, names[i])
      && (ClampError(t, names[i]).Some? ==> FirstUnclampable(t, names) == i)
      && (Find(t.columns, names[i]).Some? ==>
            cur.columns[Find(t.columns, names[i]).value].cells.Numbers? ==
            t.columns[Find(t.columns, names[i]).value].cells.Numbers?)
  {
    var cur := ClampListed(t, names[..i]);
    FindByNames(t.columns, cur.columns, names[i]);
  }

  /** A column without rows, such as every column of a frame read from a header-only
      file, passes, and so does a text column without values; a text value or a
      categorical column with rows raises. */
  lemma ClampErrorExamples()
    ensures ClampError(Table([], [Column("WS", Texts([]))]), "WS") == None
    ensures ClampError(Table([], [Column("WD_compass", Labels([]))]), "WD_compass") == None
    ensures ClampError(Table([0], [Column("WS", Texts([None]))]), "WS") == None
    ensures ClampError(Table([0], [Column("WS", Texts([Some("x")]))]), "WS") == Some(TypeError("WS"))
    ensures ClampError(Table([0], [Column("WD_compass", Labels([None]))]), "WD_compass") == Some(TypeError("WD_compass"))
    ensures ClampError(Table([0], [Column("WS", Numbers([None]))]), "GHI") == Some(KeyError(["GHI"]))
  {
    assert Find([Column("WS", Texts([]))], "WS") == Some(0);
    assert Find([Column("WD_compass", Labels([]))], "WD_compass") == Some(0);
    assert Find([Column("WS", Texts([None]))], "WS") == Some(0);
    assert Find([Column("WS", Texts([Some("x")]))], "WS") == Some(0);
    assert !Clampable(Texts([Some("x")])) by {
      assert Texts([Some("x")]).ss[0].Some?;
    }
    assert Find([Column("WD_compass", Labels([None]))], "WD_compass") == Some(0);
    assert Find([Column("WS", Numbers([None]))], "GHI") == None by {
      assert [Column("WS", Numbers([None]))][0].name != "GHI";
    }
  }

  /** A listed text or categorical column that does not raise is left as it is. */
  lemma ClampPrefixSkip(t: Table, names: seq<string>, i: nat)
    requires WellFormed(t) && i < |names| && Find(t.columns, names[i]).Some?
    requires !t.columns[Find(t.columns, names[i]).value].cells.Numbers?
    ensures ClampListed(t, names[..i + 1]) == ClampListed(t, names[..i])
  {
    var c := Find(t.columns, names[i]).value;
    var a := ClampListed(t, names[..i + 1]);
    var b := ClampListed(t, names[..i]);
    assert names[..i + 1] == names[..i] + [names[i]];
    forall d | 0 <= d < |t.columns| && t.columns[d].cells.Numbers?
      ensures t.columns[d].name in names[..i + 1] <==> t.columns[d].name in names[..i]
    {
      FindOwnName(t, d);
    }
    assert a.columns == b.columns;
  }

  /** Clamping one more numeric column rewrites that column and nothing else. */
  lemma ClampListedStep(t: Table, names: seq<string>, name: string)
    requires WellFormed(t) && NumericColumn(t, name).Ok?
    ensures var cur := ClampListed(t, names);
      var c := Find(t.columns, name).value;
      ClampListed(t, names + [name]) ==
        Table(cur.index, cur.columns[c := Column(name, Numbers(ClampColumn(cur.columns[c].cells.xs)))])
  {
    var cur := ClampListed(t, names);
    var c := Find(t.columns, name).value;
    var next := ClampListed(t, names + [name]);
    var expected := cur.columns[c := Column(name, Numbers(ClampColumn(cur.columns[c].cells.xs)))];
    forall d | 0 <= d < |t.columns|
      ensures next.columns[d] == expected[d]
    {
      if d == c && name in names {
        ClampIdempotent(t.columns[c].cells.xs);
      } else if d != c {
        assert t.columns[d].name in names + [name] <==> t.columns[d].name in names by {
          FindOwnName(t, d);
        }
      }
    }
    assert next.columns == expected;
  }

  lemma ClampPrefixStep(t: Table, names: seq<string>, i: nat)
    requires WellFormed(t) && i < |names| && NumericColumn(t, names[i]).Ok?
    ensures var cur := ClampListed(t, names[..i]);
      var c := Find(t.columns, names[i]).value;
      ClampListed(t, names[..i + 1]) ==
        Table(cur.index, cur.columns[c := Column(names[i], Numbers(ClampColumn(cur.columns[c].cells.xs)))])
  {
    assert names[..i + 1] == names[..i] + [names[i]];
    ClampListedStep(t, names[..i], names[i]);
  }

  lemma FindByNames(a: seq<Column>, b: seq<Column>, name: string)
    requires |a| == |b| && forall c :: 0 <= c < |a| ==> a[c].name == b[c].name
    ensures Find(a, name) == Find(b, name)
  {
    if |a| > 0 {
      FindByNames(a[1..], b[1..], name);
    }
  }

  /** replace_negative_values: clamps the listed columns of the frame in place, one
      after the other. An absent name, a text column with a value, or a categorical
      column with rows raises, leaving the columns before it already clamped; a column
      without rows, or a text column without any value, is left as it is. */
  method ReplaceNegativeValues(df: DataFrame, columns: seq<string>) returns (r: Outcome<Error>)
    requires WellFormed(df.Snapshot())
    modifies df
    ensures var t := old(df.Snapshot());
      var k := FirstUnclampable(t, columns);
      && (r.Pass? <==> k == |columns|)
      && (r.Fail? ==> r.error == ClampError(t, columns[k]).value)
      && df.Snapshot() == ClampListed(t, columns[..k])
  {
    ghost var t := df.Snapshot();
    assert ClampListed(t, columns[..0]) == t;
    for i := 0 to |columns|
      invariant i <= FirstUnclampable(t, columns)
      invariant df.Snapshot() == ClampListed(t, columns[..i])
    {
      ClampListedKeepsKinds(t, columns, i);
      var err := ClampError(df.Snapshot(), columns[i]);
      if err.Some? {
        return Fail(err.value);
      }
      var c := Find(df.columns, columns[i]).value;
      if df.columns[c].cells.Numbers? {
        ClampPrefixStep(t, columns, i);
        df.columns := df.columns[c := Column(columns[i], Numbers(ClampColumn(df.columns[c].cells.xs)))];
      } else {
        ClampPrefixSkip(t, columns, i);
      }
    }
    assert columns[..|columns|] == columns;
    r := Pass;
  }

  // ---------------------------------------------------------------- wind compass

  /** The category order of the compass labels. */
  const CompassLabels: seq<Compass> := [N, NE, E, SE, S, SW, W, NW]

  /** np.linspace(0, 360, 9). */
  const Edges: seq<real> := [0.0, 45.0, 90.0, 135.0, 180.0, 225.0, 270.0, 315.0, 360.0]

  const CompassColumnName: string := "WD_compass"

  /** `searchsorted(x, side='left')` on sorted edges: the number of edges below x. */
  function CountBelow(edges: seq<real>, x: real): nat
  {
    if |edges| == 0 then 0
    else CountBelow(edges[..|edges| - 1], x) + (if edges[|edges| - 1] < x then 1 else 0)
  }

  predicate StrictlyIncreasing(s: seq<real>)
  {
    forall i, j :: 0 <= i < j < |s| ==> s[i] < s[j]
  }

  /** On strictly increasing edges, x lies above exactly the first k of them. */
  lemma {:induction false} CountBelowIs(edges: seq<real>, x: real, k: nat)
    requires StrictlyIncreasing(edges) && k <= |edges|
    requires k > 0 ==> edges[k - 1] < x
    requires k < |edges| ==> x <= edges[k]
    ensures CountBelow(edges, x) == k
  {
    var n := |edges|;
    if n > 0 {
      var prefix := edges[..n - 1];
      if k == n {
        CountBelowIs(prefix, x, n - 1);
      } else {
        CountBelowIs(prefix, x, k);
      }
    }
  }

  /** pd.cut(x, bins=Edges, labels=CompassLabels, include_lowest=True): the bins are
      closed on the right, and x equal to the lowest edge falls in the first bin. */
  function Bucket(x: real): Option<Compass>
  {
    var id := if x == Edges[0] then 1 else CountBelow(Edges, x);
    if 1 <= id <= 8 then Some(CompassLabels[id - 1]) else None
  }

  /** The k-th compass sector: [0, 45] for N, (45k, 45(k + 1)] for the others. */
  predicate InSector(x: real, k: nat)
  {
    || (k == 0 && 0.0 <= x <= 45.0)
    || (0 < k < 8 && 45.0 * k as real < x <= 45.0 * (k + 1) as real)
  }

  /** Bucket labels exactly the values in [0, 360], each with the label of its sector. */
  lemma BucketIsSector(x: real)
    ensures Bucket(x).None? <==> x < 0.0 || x > 360.0
    ensures forall k :: 0 <= k < 8 ==> (Bucket(x) == Some(CompassLabels[k]) <==> InSector(x, k))
  {
    EdgesIncreasing();
    if x < 0.0 {
      CountBelowIs(Edges, x, 0);
    } else if x > 360.0 {
      CountBelowIs(Edges, x, 9);
    } else {
      var k := SectorOf(x);
      BucketInRange(x);
      SectorUnique(x, k);
    }
  }

  lemma EdgesIncreasing()
    ensures StrictlyIncreasing(Edges)
  {
  }

  /** The sector of a direction in [0, 360]. */
  function SectorOf(x: real): (k: nat)
    requires 0.0 <= x <= 360.0
    ensures k < 8 && InSector(x, k)
  {
    if x <= 45.0 then 0 else if x <= 90.0 then 1 else if x <= 135.0 then 2
    else if x <= 180.0 then 3 else if x <= 225.0 then 4 else if x <= 270.0 then 5
    else if x <= 315.0 then 6 else 7
  }

  lemma BucketInRange(x: real)
    requires 0.0 <= x <= 360.0 && StrictlyIncreasing(Edges)
    ensures Bucket(x) == Some(CompassLabels[SectorOf(x)])
  {
    if x != 0.0 {
      CountBelowIs(Edges, x, SectorOf(x) + 1);
    }
  }

  /** Sectors do not overlap, and their labels are distinct. */
  lemma SectorUnique(x: real, k: nat)
    requires k < 8 && InSector(x, k)
    ensures forall j :: 0 <= j < 8 && j != k ==> !InSector(x, j) && CompassLabels[j] != CompassLabels[k]
  {
  }

  /** The boundary cases of the bucketing. */
  lemma BucketExamples()
    ensures Bucket(0.0) == Some(N) && Bucket(45.0) == Some(N)
    ensures Bucket(45.5) == Some(NE) && Bucket(180.0) == Some(SE)
    ensures Bucket(359.9) == Some(NW) && Bucket(360.0) == Some(NW)
    ensures Bucket(-0.5) == None && Bucket(360.5) == None
  {
    BucketIsSector(0.0);
    BucketIsSector(45.0);
    BucketIsSector(45.5);
    BucketIsSector(180.0);
    BucketIsSector(359.9);
    BucketIsSector(360.0);
    BucketIsSector(-0.5);
    BucketIsSector(360.5);
  }

  function CompassColumn(xs: seq<Option<real>>): (r: seq<Option<Compass>>)
    ensures |r| == |xs|
    ensures forall i :: 0 <= i < |xs| ==> r[i] == if xs[i].Some? then Bucket(xs[i].value) else None
  {
    seq(|xs|, i requires 0 <= i < |xs| => if xs[i].Some? then Bucket(xs[i].value) else None)
  }

  /** The table normalize_wind_direction leaves behind: `WD_compass` set to the
      compass labels of the direction column. */
  function WithCompass(t: Table, column: string): (r: Result<Table, Error>)
    ensures r.Ok? <==> NumericColumn(t, column).Ok?
    ensures r.Err? ==> r.error == NumericColumn(t, column).error
  {
    match NumericColumn(t, column)
    case Err(e) => Err(e)
    case Ok(xs) => Ok(Table(t.index, SetColumn(t.columns, Column(CompassColumnName, Labels(CompassColumn(xs))))))
  }

  /** normalize_wind_direction only sets `WD_compass`: the index and every other column
      keep their place and contents, and the new column labels each row's direction. */
  lemma WithCompassOnlySetsCompass(t: Table, column: string)
    requires WellFormed(t) && WithCompass(t, column).Ok?
    ensures var r := WithCompass(t, column).value;
      var xs := NumericColumn(t, column).value;
      && WellFormed(r)
      && r.index == t.index
      && |r.columns| == |t.columns| + (if Find(t.columns, CompassColumnName).Some? then 0 else 1)
      && (forall c :: 0 <= c < |t.columns| && t.columns[c].name != CompassColumnName ==> r.columns[c] == t.columns[c])
      && Find(r.columns, CompassColumnName).Some?
      && var labels := r.columns[Find(r.columns, CompassColumnName).value].cells;
         && labels.Labels? && |labels.ls| == |t.index|
         && forall i :: 0 <= i < |t.index| ==> labels.ls[i] == if xs[i].Some? then Bucket(xs[i].value) else None
  {
    var xs := NumericColumn(t, column).value;
    var col := Column(CompassColumnName, Labels(CompassColumn(xs)));
    SetColumnWellFormed(t, col);
    var r := WithCompass(t, column).value;
    var p := Find(t.columns, CompassColumnName);
    if p.None? {
      assert r.columns[|t.columns|].name == CompassColumnName;
    } else {
      assert r.columns[p.value].name == CompassColumnName;
    }
  }

  /** normalize_wind_direction on a frame, in place. */
  method NormalizeWindDirection(df: DataFrame, column: string) returns (r: Outcome<Error>)
    modifies df
    ensures var w := WithCompass(old(df.Snapshot()), column);
      && (w.Ok? ==> r.Pass? && df.Snapshot() == w.value)
      && (w.Err? ==> r == Fail(w.error) && df.Snapshot() == old(df.Snapshot()))
  {
    var found := Find(df.columns, column);
    if found.None? {
      return Fail(KeyError([column]));
    }
    if !df.columns[found.value].cells.Numbers? {
      return Fail(TypeError(column));
    }
    var labels := CompassColumn(df.columns[found.value].cells.xs);
    df.columns := SetColumn(df.columns, Column(CompassColumnName, Labels(labels)));
    r := Pass;
  }

  // ---------------------------------------------------------------- mean wind speed by label

  function LabelMask(ls: seq<Option<Compass>>, c: Compass): (m: seq<bool>)
    ensures |m| == |ls|
    ensures forall i :: 0 <= i < |ls| ==> (m[i] <==> ls[i] == Some(c))
  {
    seq(|ls|, i requires 0 <= i < |ls| => ls[i] == Some(c))
  }

  function UnlabelledMask(ls: seq<Option<Compass>>): (m: seq<bool>)
    ensures |m| == |ls|
    ensures forall i :: 0 <= i < |ls| ==> (m[i] <==> ls[i].None?)
  {
    seq(|ls|, i requires 0 <= i < |ls| => ls[i].None?)
  }

  /** `groupby(group)[target].mean()` for a categorical compass column: one entry per
      label in category order, the mean of the target over the rows with that label,
      NaN (None) for a label no row with a present target carries. */
  function CalculateMeanWindSpeed(t: Table, groupBy: string, target: string): (r: Result<seq<(Compass, Option<real>)>, Error>)
    requires WellFormed(t)
    ensures r.Ok? <==>
      && Find(t.columns, groupBy).Some? && t.columns[Find(t.columns, groupBy).value].cells.Labels?
      && NumericColumn(t, target).Ok?
    ensures r.Ok? ==>
      var ls := t.columns[Find(t.columns, groupBy).value].cells.ls;
      var xs := NumericColumn(t, target).value;
      && |r.value| == 8
      && forall k :: 0 <= k < 8 ==>
        && r.value[k].0 == CompassLabels[k]
        && |ls| == |xs|
        && r.value[k].1 == ColumnMean(Filter(xs, LabelMask(ls, CompassLabels[k])))
  {
    match Find(t.columns, groupBy)
    case None => Err(KeyError([groupBy]))
    case Some(g) =>
      match NumericColumn(t, target)
      case Err(e) => Err(e)
      case Ok(xs) =>
        if !t.columns[g].cells.Labels? then Err(TypeError(groupBy))
        else
          var ls := t.columns[g].cells.ls;
          Ok(seq(8, k requires 0 <= k < 8 => (CompassLabels[k], ColumnMean(Filter(xs, LabelMask(ls, CompassLabels[k]))))))
  }

  /** The rows of the group labelled c, as the group's target values. */
  function Group(ls: seq<Option<Compass>>, xs: seq<Option<real>>, c: Compass): (g: seq<Option<real>>)
    requires |ls| == |xs|
    ensures |g| == |Kept(LabelMask(ls, c))|
    ensures forall j :: 0 <= j < |g| ==> ls[Kept(LabelMask(ls, c))[j]] == Some(c) && g[j] == xs[Kept(LabelMask(ls, c))[j]]
  {
    FilterAt(xs, LabelMask(ls, c));
    Filter(xs, LabelMask(ls, c))
  }

  /** A group's mean depends only on the targets of the rows carrying its label. */
  lemma GroupMeanDependsOnGroupRows(ls: seq<Option<Compass>>, xs: seq<Option<real>>, ys: seq<Option<real>>, c: Compass)
    requires |ls| == |xs| == |ys|
    requires forall i :: 0 <= i < |ls| && ls[i] == Some(c) ==> xs[i] == ys[i]
    ensures ColumnMean(Group(ls, xs, c)) == ColumnMean(Group(ls, ys, c))
  {
    assert Group(ls, xs, c) == Group(ls, ys, c);
  }

  /** A group has a mean exactly when one of its rows has a target value. */
  lemma GroupMeanDefined(ls: seq<Option<Compass>>, xs: seq<Option<real>>, c: Compass)
    requires |ls| == |xs|
    ensures ColumnMean(Group(ls, xs, c)).Some? <==> exists i :: 0 <= i < |ls| && ls[i] == Some(c) && xs[i].Some?
  {
    var g := Group(ls, xs, c);
    var m := LabelMask(ls, c);
    PresentNonEmpty(g);
    if i :| 0 <= i < |ls| && ls[i] == Some(c) && xs[i].Some? {
      assert m[i] && i in Kept(m);
      var j :| 0 <= j < |Kept(m)| && Kept(m)[j] == i;
      assert g[j].Some?;
    }
  }

  /** When every target value in a group is v, and there is one, the group's mean is v. */
  lemma GroupMeanOfUniform(ls: seq<Option<Compass>>, xs: seq<Option<real>>, c: Compass, v: real)
    requires |ls| == |xs|
    requires exists i :: 0 <= i < |ls| && ls[i] == Some(c) && xs[i].Some?
    requires forall i :: 0 <= i < |ls| && ls[i] == Some(c) && xs[i].Some? ==> xs[i].value == v
    ensures ColumnMean(Group(ls, xs, c)) == Some(v)
  {
    var g := Group(ls, xs, c);
    GroupMeanDefined(ls, xs, c);
    assert forall j :: 0 <= j < |g| && g[j].Some? ==> g[j].value == v;
    ColumnMeanOfUniform(g, v);
  }

  /** The target column and the label column of a table calculate_mean_wind_speed accepts. */
  function GroupColumns(t: Table, groupBy: string, target: string): (r: (seq<Option<Compass>>, seq<Option<real>>))
    requires WellFormed(t) && CalculateMeanWindSpeed(t, groupBy, target).Ok?
    ensures |r.0| == |r.1| == |t.index|
    ensures r.0 == t.columns[Find(t.columns, groupBy).value].cells.ls
    ensures r.1 == NumericColumn(t, target).value
    ensures forall k :: 0 <= k < 8 ==>
      CalculateMeanWindSpeed(t, groupBy, target).value[k].1 == ColumnMean(Group(r.0, r.1, CompassLabels[k]))
  {
    var g := Find(t.columns, groupBy).value;
    var ls := t.columns[g].cells.ls;
    var xs := NumericColumn(t, target).value;
    assert Length(t.columns[g].cells) == |t.index|;
    assert Length(t.columns[Find(t.columns, target).value].cells) == |t.index|;
    (ls, xs)
  }

  /** Entry k of the wind-speed means depends only on the targets of the rows labelled k:
      two tables with the same labels whose targets agree on those rows agree on entry k. */
  lemma MeanWindSpeedDependsOnGroupRows(t: Table, u: Table, groupBy: string, target: string, k: nat)
    requires WellFormed(t) && WellFormed(u) && k < 8
    requires CalculateMeanWindSpeed(t, groupBy, target).Ok? && CalculateMeanWindSpeed(u, groupBy, target).Ok?
    requires GroupColumns(t, groupBy, target).0 == GroupColumns(u, groupBy, target).0
    requires var (ls, xs) := GroupColumns(t, groupBy, target);
      var ys := GroupColumns(u, groupBy, target).1;
      forall i :: 0 <= i < |ls| && ls[i] == Some(CompassLabels[k]) ==> xs[i] == ys[i]
    ensures CalculateMeanWindSpeed(t, groupBy, target).value[k].1 == CalculateMeanWindSpeed(u, groupBy, target).value[k].1
  {
    var (ls, xs) := GroupColumns(t, groupBy, target);
    GroupMeanDependsOnGroupRows(ls, xs, GroupColumns(u, groupBy, target).1, CompassLabels[k]);
  }

  /** Entry k is NaN exactly when no row labelled k has a wind speed, and when every
      wind speed in the group is v, it is v. */
  lemma MeanWindSpeedOfGroup(t: Table, groupBy: string, target: string, k: nat, v: real)
    requires WellFormed(t) && k < 8 && CalculateMeanWindSpeed(t, groupBy, target).Ok?
    ensures var (ls, xs) := GroupColumns(t, groupBy, target);
      var mean := CalculateMeanWindSpeed(t, groupBy, target).value[k].1;
      && (mean.None? <==> forall i :: 0 <= i < |ls| && ls[i] == Some(CompassLabels[k]) ==> xs[i].None?)
      && ((forall i :: 0 <= i < |ls| && ls[i] == Some(CompassLabels[k]) && xs[i].Some? ==> xs[i].value == v) ==>
            mean.None? || mean == Some(v))
  {
    var (ls, xs) := GroupColumns(t, groupBy, target);
    GroupMeanDefined(ls, xs, CompassLabels[k]);
    if (exists i :: 0 <= i < |ls| && ls[i] == Some(CompassLabels[k]) && xs[i].Some?) &&
       (forall i :: 0 <= i < |ls| && ls[i] == Some(CompassLabels[k]) && xs[i].Some? ==> xs[i].value == v) {
      GroupMeanOfUniform(ls, xs, CompassLabels[k], v);
    }
  }

  function Ordinal(c: Compass): (k: nat)
    ensures k < 8 && CompassLabels[k] == c
  {
    match c
    case N => 0 case NE => 1 case E => 2 case SE => 3
    case S => 4 case SW => 5 case W => 6 case NW => 7
  }

  /** The sizes of the first k groups. */
  function GroupSizes(ls: seq<Option<Compass>>, k: nat): nat
    requires k <= 8
  {
    if k == 0 then 0 else GroupSizes(ls, k - 1) + CountTrue(LabelMask(ls, CompassLabels[k - 1]))
  }

  lemma CountTrueLast(m: seq<bool>)
    requires |m| > 0
    ensures CountTrue(m) == CountTrue(m[..|m| - 1]) + (if m[|m| - 1] then 1 else 0)
  {
  }

  lemma LabelMaskPrefix(ls: seq<Option<Compass>>, c: Compass)
    requires |ls| > 0
    ensures LabelMask(ls, c)[..|ls| - 1] == LabelMask(ls[..|ls| - 1], c)
  {
  }

  lemma OrdinalOfLabel(k: nat)
    requires k < 8
    ensures Ordinal(CompassLabels[k]) == k
  {
  }

  lemma {:induction false} GroupSizesLast(ls: seq<Option<Compass>>, k: nat)
    requires |ls| > 0 && k <= 8
    ensures var n := |ls| - 1;
      GroupSizes(ls, k) == GroupSizes(ls[..n], k) + (if ls[n].Some? && Ordinal(ls[n].value) < k then 1 else 0)
  {
    var n := |ls| - 1;
    if k > 0 {
      GroupSizesLast(ls, k - 1);
      var c := CompassLabels[k - 1];
      CountTrueLast(LabelMask(ls, c));
      LabelMaskPrefix(ls, c);
      OrdinalOfLabel(k - 1);
    }
  }

  /** The eight groups and the unlabelled rows partition the rows: every labelled row
      belongs to exactly its own group, and an unlabelled row to none. */
  lemma {:induction false} GroupsPartitionRows(ls: seq<Option<Compass>>)
    ensures GroupSizes(ls, 8) + CountTrue(UnlabelledMask(ls)) == |ls|
  {
    if |ls| > 0 {
      var n := |ls| - 1;
      GroupsPartitionRows(ls[..n]);
      GroupSizesLast(ls, 8);
      CountTrueLast(UnlabelledMask(ls));
      assert UnlabelledMask(ls)[..n] == UnlabelledMask(ls[..n]);
    } else {
      NoRowsNoGroups(ls, 8);
    }
  }

  lemma {:induction false} NoRowsNoGroups(ls: seq<Option<Compass>>, k: nat)
    requires |ls| == 0 && k <= 8
    ensures GroupSizes(ls, k) == 0
  {
    if k > 0 {
      NoRowsNoGroups(ls, k - 1);
    }
  }

  // ---------------------------------------------------------------- z-scores

  /** The frame calculate_z_scores builds: one column of scores per distinct name. */
  datatype ZTable = ZTable(index: seq<int>, names: seq<string>, scores: seq<seq<Option<ZScore>>>)

  predicate ZWellFormed(z: ZTable)
  {
    |z.scores| == |z.names| && forall c :: 0 <= c < |z.scores| ==> |z.scores[c]| == |z.index|
  }

  /** `(x - mean) / std` cell by cell, for a given mean and variance. */
  function Standardize(xs: seq<Option<real>>, mean: real, variance: real): (r: seq<Option<ZScore>>)
    ensures |r| == |xs|
    ensures forall i :: 0 <= i < |xs| ==>
      r[i] == if xs[i].Some? then Some(ZScore(xs[i].value - mean, variance)) else None
  {
    if |xs| == 0 then []
    else
      var n := |xs| - 1;
      Standardize(xs[..n], mean, variance) + [if xs[n].Some? then Some(ZScore(xs[n].value - mean, variance)) else None]
  }

  /** `(df[col] - df[col].mean()) / df[col].std()`: undefined (NaN) for a missing cell,
      for a column with fewer than two present values (std is NaN), and for a column
      of equal values (each deviation is 0 and 0 / 0 is NaN). */
  function ZColumn(xs: seq<Option<real>>): (r: seq<Option<ZScore>>)
    ensures |r| == |xs|
    ensures forall i :: 0 <= i < |xs| ==>
      (r[i].Some? <==> xs[i].Some? && SampleVariance(xs).Some? && SampleVariance(xs).value > 0.0)
    ensures forall i :: 0 <= i < |xs| && r[i].Some? ==>
      && ColumnMean(xs).Some?
      && r[i].value == ZScore(xs[i].value - ColumnMean(xs).value, SampleVariance(xs).value)
  {
    var v := SampleVariance(xs);
    if v.None? || v.value == 0.0 then seq(|xs|, i => None)
    else Standardize(xs, ColumnMean(xs).value, v.value)
  }

  /** The sum of the defined deviations of a score column. */
  function DeviationSum(zs: seq<Option<ZScore>>): real
  {
    if |zs| == 0 then 0.0
    else
      var n := |zs| - 1;
      DeviationSum(zs[..n]) + (if zs[n].Some? then zs[n].value.deviation else 0.0)
  }

  lemma {:induction false} DeviationSumStandardize(xs: seq<Option<real>>, mean: real, variance: real)
    ensures DeviationSum(Standardize(xs, mean, variance)) == SumDeviations(Present(xs), mean)
  {
    if |xs| > 0 {
      var n := |xs| - 1;
      DeviationSumStandardize(xs[..n], mean, variance);
      var init := Standardize(xs[..n], mean, variance);
      var last := if xs[n].Some? then Some(ZScore(xs[n].value - mean, variance)) else None;
      var zs := init + [last];
      assert Standardize(xs, mean, variance) == zs;
      assert zs[..n] == init;
      var p := Present(xs[..n]);
      if xs[n].Some? {
        SumDeviationsSnoc(p, xs[n].value, mean);
      } else {
        assert Present(xs) == p + [] == p;
      }
    }
  }

  /** The scores of a column with a defined, non-zero spread sum to zero. */
  lemma ZScoresCancel(xs: seq<Option<real>>)
    requires SampleVariance(xs).Some? && SampleVariance(xs).value > 0.0
    ensures DeviationSum(ZColumn(xs)) == 0.0
  {
    DeviationSumStandardize(xs, ColumnMean(xs).value, SampleVariance(xs).value);
    DeviationsFromMeanCancel(Present(xs));
  }

  lemma {:induction false} SumSquaredDeviationsOfConstant(s: seq<real>, k: real)
    requires forall i :: 0 <= i < |s| ==> s[i] == k
    ensures SumSquaredDeviations(s, k) == 0.0
  {
    if |s| > 0 {
      SumSquaredDeviationsOfConstant(s[..|s| - 1], k);
    }
  }

  /** A column whose present values all equal k has no defined score at all. */
  lemma ConstantColumnHasNoScores(xs: seq<Option<real>>, k: real)
    requires forall i :: 0 <= i < |xs| && xs[i].Some? ==> xs[i].value == k
    ensures forall i :: 0 <= i < |xs| ==> ZColumn(xs)[i].None?
  {
    var p := Present(xs);
    PresentMembers(xs);
    if |p| >= 2 {
      forall i | 0 <= i < |p| ensures p[i] == k {
        assert p[i] in p;
      }
      MeanOfConstant(p, k);
      SumSquaredDeviationsOfConstant(p, k);
    }
  }

  /** Every score column is the score of the numeric column of its name. */
  ghost predicate ScoresOf(t: Table, names: seq<string>, scores: seq<seq<Option<ZScore>>>)
  {
    && |scores| == |names|
    && forall c :: 0 <= c < |names| ==>
         NumericColumn(t, names[c]).Ok? && scores[c] == ZColumn(NumericColumn(t, names[c]).value)
  }

  /** `z_scores[name] = zs`: replaces the column of that name, or appends one. */
  function SetScores(names: seq<string>, scores: seq<seq<Option<ZScore>>>, name: string, zs: seq<Option<ZScore>>):
    (r: (seq<string>, seq<seq<Option<ZScore>>>))
    requires |names| == |scores|
  {
    if name in names then (names, scores[IndexOf(names, name) := zs]) else (names + [name], scores + [zs])
  }

  lemma ZScoresStep(t: Table, columns: seq<string>, k: nat, names: seq<string>, scores: seq<seq<Option<ZScore>>>)
    requires k < |columns| && NumericColumn(t, columns[k]).Ok?
    requires names == Dedup(columns[..k]) && ScoresOf(t, names, scores)
    ensures var next := SetScores(names, scores, columns[k], ZColumn(NumericColumn(t, columns[k]).value));
      next.0 == Dedup(columns[..k + 1]) && ScoresOf(t, next.0, next.1)
  {
    DedupStep(columns, k);
    if columns[k] in names {
      ScoresReplaced(t, names, scores, columns[k]);
    } else {
      ScoresAppended(t, names, scores, columns[k]);
    }
  }

  /** Setting the scores of a name already present keeps every score column right. */
  lemma ScoresReplaced(t: Table, names: seq<string>, scores: seq<seq<Option<ZScore>>>, name: string)
    requires ScoresOf(t, names, scores) && name in names && NumericColumn(t, name).Ok?
    ensures ScoresOf(t, names, scores[IndexOf(names, name) := ZColumn(NumericColumn(t, name).value)])
  {
    var p := IndexOf(names, name);
    var updated := scores[p := ZColumn(NumericColumn(t, name).value)];
    forall c | 0 <= c < |names|
      ensures NumericColumn(t, names[c]).Ok? && updated[c] == ZColumn(NumericColumn(t, names[c]).value)
    {
      if c != p {
        assert updated[c] == scores[c];
      }
    }
  }

  /** Appending the scores of a new name keeps every score column right. */
  lemma ScoresAppended(t: Table, names: seq<string>, scores: seq<seq<Option<ZScore>>>, name: string)
    requires ScoresOf(t, names, scores) && NumericColumn(t, name).Ok?
    ensures ScoresOf(t, names + [name], scores + [ZColumn(NumericColumn(t, name).value)])
  {
    var grown := names + [name];
    var appended := scores + [ZColumn(NumericColumn(t, name).value)];
    forall c | 0 <= c < |grown|
      ensures NumericColumn(t, grown[c]).Ok? && appended[c] == ZColumn(NumericColumn(t, grown[c]).value)
    {
      if c < |names| {
        assert grown[c] == names[c] && appended[c] == scores[c];
      }
    }
  }

  /** calculate_z_scores: a loop that sets one score column per requested name, in
      order of first request; the first name that is not a numeric column raises. */
  method CalculateZScores(t: Table, columns: seq<string>) returns (r: Result<ZTable, Error>)
    requires WellFormed(t)
    ensures var k := FirstNonNumeric(t, columns);
      && (r.Ok? <==> k == |columns|)
      && (r.Err? ==> r.error == NumericColumn(t, columns[k]).error)
    ensures r.Ok? ==>
      && ZWellFormed(r.value)
      && r.value.names == Dedup(columns)
      && r.value.index == (if |columns| == 0 then [] else t.index)
      && forall c :: 0 <= c < |r.value.names| ==>
           NumericColumn(t, r.value.names[c]).Ok? &&
           r.value.scores[c] == ZColumn(NumericColumn(t, r.value.names[c]).value)
  {
    var index: seq<int> := [];
    var names: seq<string> := [];
    var scores: seq<seq<Option<ZScore>>> := [];
    for k := 0 to |columns|
      invariant k <= FirstNonNumeric(t, columns)
      invariant names == Dedup(columns[..k])
      invariant index == if k == 0 then [] else t.index
      invariant ScoresOf(t, names, scores)
    {
      var col := NumericColumn(t, columns[k]);
      if col.Err? {
        return Err(col.error);
      }
      NextNumeric(t, columns, k);
      ZScoresStep(t, columns, k, names, scores);
      var next := SetScores(names, scores, columns[k], ZColumn(col.value));
      names, scores := next.0, next.1;
      index := t.index;
    }
    assert columns[..|columns|] == columns;
    ScoresOfWellFormed(t, index, names, scores);
    r := Ok(ZTable(index, names, scores));
  }

  lemma ScoresOfWellFormed(t: Table, index: seq<int>, names: seq<string>, scores: seq<seq<Option<ZScore>>>)
    requires WellFormed(t) && ScoresOf(t, names, scores)
    requires index == t.index || names == []
    ensures ZWellFormed(ZTable(index, names, scores))
  {
  }

  function IndexOf(s: seq<string>, x: string): (p: nat)
    requires x in s
    ensures p < |s| && s[p] == x
  {
    if s[0] == x then 0 else 1 + IndexOf(s[1..], x)
  }

  lemma DedupStep(s: seq<string>, k: nat)
    requires k < |s|
    ensures Dedup(s[..k + 1]) == if s[k] in Dedup(s[..k]) then Dedup(s[..k]) else Dedup(s[..k]) + [s[k]]
  {
    assert s[..k + 1][..k] == s[..k];
  }

  /** Some defined score of row i exceeds the threshold in absolute value. */
  predicate RowExceeds(z: ZTable, threshold: real, i: nat)
    requires ZWellFormed(z) && i < |z.index|
  {
    exists c :: 0 <= c < |z.names| && z.scores[c][i].Some? && Exceeds(z.scores[c][i].value, threshold)
  }

  function FlagMask(z: ZTable, threshold: real): (m: seq<bool>)
    requires ZWellFormed(z)
    ensures |m| == |z.index|
    ensures forall i :: 0 <= i < |z.index| ==> (m[i] <==> RowExceeds(z, threshold, i))
  {
    seq(|z.index|, i requires 0 <= i < |z.index| => RowExceeds(z, threshold, i))
  }

  /** flag_outliers: the rows, in order and with their index labels, in which some
      score exceeds the threshold (`(z.abs() > threshold).any(axis=1)`). */
  function FlagOutliers(z: ZTable, threshold: real): (r: ZTable)
    requires ZWellFormed(z)
    ensures ZWellFormed(r) && r.names == z.names
    ensures var kept := Kept(FlagMask(z, threshold));
      && |r.index| == |kept|
      && (forall j :: 0 <= j < |kept| ==>
            && r.index[j] == z.index[kept[j]]
            && RowExceeds(z, threshold, kept[j])
            && forall c :: 0 <= c < |z.names| ==> r.scores[c][j] == z.scores[c][kept[j]])
      && (forall i :: 0 <= i < |z.index| && RowExceeds(z, threshold, i) ==> i in kept)
  {
    var m := FlagMask(z, threshold);
    var r := ZTable(Filter(z.index, m), z.names, seq(|z.scores|, c requires 0 <= c < |z.scores| => Filter(z.scores[c], m)));
    FlaggedRows(z, threshold, r);
    r
  }

  lemma FlaggedRows(z: ZTable, threshold: real, r: ZTable)
    requires ZWellFormed(z)
    requires var m := FlagMask(z, threshold);
      r == ZTable(Filter(z.index, m), z.names, seq(|z.scores|, c requires 0 <= c < |z.scores| => Filter(z.scores[c], m)))
    ensures ZWellFormed(r)
    ensures var kept := Kept(FlagMask(z, threshold));
      && |r.index| == |kept|
      && (forall j :: 0 <= j < |kept| ==>
            && r.index[j] == z.index[kept[j]]
            && RowExceeds(z, threshold, kept[j])
            && forall c :: 0 <= c < |z.names| ==> r.scores[c][j] == z.scores[c][kept[j]])
  {
    var m := FlagMask(z, threshold);
    var kept := Kept(m);
    FilterAt(z.index, m);
    forall c | 0 <= c < |z.names| ensures forall j :: 0 <= j < |kept| ==> r.scores[c][j] == z.scores[c][kept[j]] {
      FilterAt(z.scores[c], m);
    }
    forall j | 0 <= j < |kept| ensures RowExceeds(z, threshold, kept[j]) {
      assert m[kept[j]];
    }
  }

  /** A table of score columns none of which holds a defined score flags no row, at
      any threshold; so a constant column is never flagged. */
  lemma ConstantColumnsFlagNothing(index: seq<int>, names: seq<string>, columns: seq<seq<Option<real>>>, ks: seq<real>, threshold: real)
    requires |names| == |columns| == |ks|
    requires forall c :: 0 <= c < |columns| ==> |columns[c]| == |index|
    requires forall c, i :: 0 <= c < |columns| && 0 <= i < |index| && columns[c][i].Some? ==> columns[c][i].value == ks[c]
    ensures var z := ZTable(index, names, seq(|columns|, c requires 0 <= c < |columns| => ZColumn(columns[c])));
      ZWellFormed(z) && FlagOutliers(z, threshold).index == []
  {
    var z := ZTable(index, names, seq(|columns|, c requires 0 <= c < |columns| => ZColumn(columns[c])));
    forall c | 0 <= c < |columns| ensures forall i :: 0 <= i < |index| ==> z.scores[c][i].None? {
      ConstantColumnHasNoScores(columns[c], ks[c]);
    }
    NothingKept(FlagMask(z, threshold));
  }

  lemma {:induction false} NothingKept(m: seq<bool>)
    requires forall i :: 0 <= i < |m| ==> !m[i]
    ensures Kept(m) == []
  {
    if |m| > 0 {
      NothingKept(m[..|m| - 1]);
    }
  }

  // ---------------------------------------------------------------- clean_data

  const Unknown: string := "unknown"

  /** `~duplicated()`: the first row of every set of equal rows. pandas treats a frame
      without columns as empty and keeps every row of it. */
  function FirstOccurrenceMask(t: Table): (m: seq<bool>)
    requires WellFormed(t)
    ensures |m| == |t.index|
    ensures forall i :: 0 <= i < |t.index| ==>
      (m[i] <==> |t.columns| == 0 || forall j :: 0 <= j < i ==> Row(t, j) != Row(t, i))
  {
    if |t.columns| == 0 then seq(|t.index|, i => true)
    else
      var d := Duplicated(AllRows(t));
      seq(|t.index|, i requires 0 <= i < |t.index| => !d[i])
  }

  /** The two frames have the same columns, in the same order, with the same dtypes. */
  predicate SameColumns(t: Table, u: Table)
  {
    && |u.columns| == |t.columns|
    && forall c :: 0 <= c < |t.columns| ==>
         u.columns[c].name == t.columns[c].name && DTypeOf(u.columns[c].cells) == DTypeOf(t.columns[c].cells)
  }

  /** drop_duplicates(). */
  function DropDuplicates(t: Table): (r: Table)
    requires WellFormed(t)
    ensures WellFormed(r)
  {
    FilterRows(t, FirstOccurrenceMask(t))
  }

  /** After drop_duplicates, check_duplicates finds no duplicate row. */
  lemma DropDuplicatesLeavesNoDuplicates(t: Table)
    requires WellFormed(t)
    ensures QualityChecker.CheckDuplicates(DropDuplicates(t)) == QualityChecker.NoDuplicatesFound
  {
    var m := FirstOccurrenceMask(t);
    var r := FilterRows(t, m);
    var kept := Kept(m);
    if |t.columns| > 0 {
      forall i, j | 0 <= j < i < |r.index| ensures Row(r, j) != Row(r, i) {
        assert Row(r, j) == Row(t, kept[j]) && Row(r, i) == Row(t, kept[i]);
        assert kept[j] < kept[i] && m[kept[i]];
      }
      assert !exists i, j :: 0 <= j < i < |r.index| && Row(r, j) == Row(r, i);
    }
  }

  /** A frame without columns is empty to pandas: drop_duplicates returns it whole. */
  lemma DropDuplicatesWithoutColumns(t: Table)
    requires WellFormed(t) && |t.columns| == 0
    ensures DropDuplicates(t) == t
  {
    var m := FirstOccurrenceMask(t);
    KeptAll(m);
    FilterAt(t.index, m);
    var r := DropDuplicates(t);
    assert r.index == t.index;
  }

  /** Row i has a value in the column named `name`. */
  predicate CellPresent(t: Table, name: string, i: nat)
    requires WellFormed(t) && i < |t.index|
  {
    Find(t.columns, name).Some? && CellAt(t.columns[Find(t.columns, name).value].cells, i).Some?
  }

  /** The rows that have a value in every critical column. */
  function CompleteMask(t: Table, critical: seq<string>): (m: seq<bool>)
    requires WellFormed(t)
    ensures |m| == |t.index|
    ensures forall i :: 0 <= i < |t.index| ==>
      (m[i] <==> forall k :: 0 <= k < |critical| ==> CellPresent(t, critical[k], i))
  {
    seq(|t.index|, i requires 0 <= i < |t.index| => forall k :: 0 <= k < |critical| ==> CellPresent(t, critical[k], i))
  }

  function AbsentMask(t: Table, names: seq<string>): (m: seq<bool>)
    ensures |m| == |names|
    ensures forall k :: 0 <= k < |names| ==> (m[k] <==> Find(t.columns, names[k]).None?)
  {
    seq(|names|, k requires 0 <= k < |names| => Find(t.columns, names[k]).None?)
  }

  /** dropna(subset=critical, how='any'): a KeyError naming every absent critical
      column, in order, and otherwise the rows complete in the critical columns. */
  function DropNa(t: Table, critical: seq<string>): (r: Result<Table, Error>)
    requires WellFormed(t)
    ensures r.Ok? <==> FirstAbsent(t, critical) == |critical|
    ensures r.Ok? ==> WellFormed(r.value)
  {
    var missing := Filter(critical, AbsentMask(t, critical));
    NoAbsentName(t, critical);
    if |missing| > 0 then Err(KeyError(missing)) else Ok(FilterRows(t, CompleteMask(t, critical)))
  }

  lemma NoAbsentName(t: Table, names: seq<string>)
    ensures |Kept(AbsentMask(t, names))| == 0 <==> FirstAbsent(t, names) == |names|
  {
    var m := AbsentMask(t, names);
    if |Kept(m)| > 0 {
      assert m[Kept(m)[0]];
    }
    if FirstAbsent(t, names) < |names| {
      assert m[FirstAbsent(t, names)];
    }
  }

  /** Neither drop_duplicates nor dropna adds, removes, renames or retypes a column. */
  lemma DropRowsKeepsColumns(t: Table, critical: seq<string>)
    requires WellFormed(t)
    ensures SameColumns(t, DropDuplicates(t))
    ensures DropNa(t, critical).Ok? ==> SameColumns(t, DropNa(t, critical).value)
  {
    assert DropDuplicates(t) == FilterRows(t, FirstOccurrenceMask(t));
    if DropNa(t, critical).Ok? {
      assert DropNa(t, critical).value == FilterRows(t, CompleteMask(t, critical));
    }
  }

  /** The KeyError names exactly the absent critical columns. */
  lemma DropNaNamesAbsentColumns(t: Table, critical: seq<string>)
    requires WellFormed(t) && DropNa(t, critical).Err?
    ensures DropNa(t, critical).error.KeyError?
    ensures forall name :: name in DropNa(t, critical).error.missing <==>
      name in critical && Find(t.columns, name).None?
  {
    forall name ensures name in DropNa(t, critical).error.missing <==> name in critical && Find(t.columns, name).None? {
      FilterContains(critical, AbsentMask(t, critical), name);
    }
  }

  /** `fillna(mean)` on a numeric column; with no present value the mean is NaN and
      nothing changes. */
  function FillWithMean(xs: seq<Option<real>>): (r: seq<Option<real>>)
    ensures |r| == |xs|
    ensures forall i :: 0 <= i < |xs| && xs[i].Some? ==> r[i] == xs[i]
    ensures forall i :: 0 <= i < |xs| && xs[i].None? ==> r[i] == ColumnMean(xs)
  {
    FillWithAt(xs, ColumnMean(xs));
    FillWith(xs, ColumnMean(xs))
  }

  /** Every missing cell replaced by v. */
  function FillWith(xs: seq<Option<real>>, v: Option<real>): (r: seq<Option<real>>)
    ensures |r| == |xs|
  {
    if |xs| == 0 then []
    else
      var n := |xs| - 1;
      FillWith(xs[..n], v) + [if xs[n].Some? then xs[n] else v]
  }

  lemma {:induction false} FillWithAt(xs: seq<Option<real>>, v: Option<real>)
    ensures forall i :: 0 <= i < |xs| ==> FillWith(xs, v)[i] == if xs[i].Some? then xs[i] else v
  {
    if |xs| > 0 {
      FillWithAt(xs[..|xs| - 1], v);
    }
  }

  /** One more cell adds one to `isnull().sum()` when it is missing. */
  lemma MissingCountSnoc(init: seq<Option<real>>, x: Option<real>)
    ensures CountTrue(QualityChecker.MissingMask(Numbers(init + [x]))) ==
      CountTrue(QualityChecker.MissingMask(Numbers(init))) + (if x.None? then 1 else 0)
  {
    var m := QualityChecker.MissingMask(Numbers(init + [x]));
    assert m[..|init|] == QualityChecker.MissingMask(Numbers(init));
    assert m[|init|] <==> x.None?;
    CountTrueLast(m);
  }

  lemma SumSnoc(p: seq<real>, x: real)
    ensures Sum(p + [x]) == Sum(p) + x
  {
    assert (p + [x])[..|p|] == p;
  }

  /** c copies of m added up. */
  function Copies(c: nat, m: real): real
  {
    if c == 0 then 0.0 else Copies(c - 1, m) + m
  }

  lemma {:induction false} CopiesIs(c: nat, m: real)
    ensures Copies(c, m) == c as real * m
  {
    if c > 0 {
      CopiesIs(c - 1, m);
      assert c as real * m == (c - 1) as real * m + m;
    }
  }

  lemma {:induction false} FillWithCount(xs: seq<Option<real>>, m: real)
    ensures |Present(FillWith(xs, Some(m)))| == |Present(xs)| + CountTrue(QualityChecker.MissingMask(Numbers(xs)))
  {
    if |xs| > 0 {
      var n := |xs| - 1;
      FillWithCount(xs[..n], m);
      assert FillWith(xs, Some(m))[..n] == FillWith(xs[..n], Some(m));
      assert xs == xs[..n] + [xs[n]];
      MissingCountSnoc(xs[..n], xs[n]);
    }
  }

  lemma {:induction false} FillWithSum(xs: seq<Option<real>>, m: real)
    ensures Sum(Present(FillWith(xs, Some(m)))) ==
      Sum(Present(xs)) + Copies(CountTrue(QualityChecker.MissingMask(Numbers(xs))), m)
  {
    if |xs| > 0 {
      var n := |xs| - 1;
      FillWithSum(xs[..n], m);
      assert xs == xs[..n] + [xs[n]];
      FilledSumSnoc(xs[..n], xs[n], m);
      SumWithCopiesSnoc(xs[..n], xs[n], m);
    }
  }

  /** Filling one more cell adds its own value, or m when it is missing. */
  lemma FilledSumSnoc(init: seq<Option<real>>, x: Option<real>, m: real)
    ensures Sum(Present(FillWith(init + [x], Some(m)))) ==
      Sum(Present(FillWith(init, Some(m)))) + (if x.Some? then x.value else m)
  {
    var f := FillWith(init, Some(m));
    var last := if x.Some? then x else Some(m);
    assert (init + [x])[..|init|] == init;
    assert FillWith(init + [x], Some(m)) == f + [last];
    PresentSnoc(f, last);
    SumSnoc(Present(f), last.value);
  }

  /** One more cell adds its value to the sum, or one more copy of m. */
  lemma SumWithCopiesSnoc(init: seq<Option<real>>, x: Option<real>, m: real)
    ensures Sum(Present(init + [x])) + Copies(CountTrue(QualityChecker.MissingMask(Numbers(init + [x]))), m) ==
      Sum(Present(init)) + Copies(CountTrue(QualityChecker.MissingMask(Numbers(init))), m) +
      (if x.Some? then x.value else m)
  {
    PresentSnoc(init, x);
    MissingCountSnoc(init, x);
    var c := CountTrue(QualityChecker.MissingMask(Numbers(init)));
    if x.Some? {
      SumSnoc(Present(init), x.value);
    } else {
      assert Present(init + [x]) == Present(init) + [] == Present(init);
      assert Copies(c + 1, m) == Copies(c, m) + m;
    }
  }

  /** Adding c copies of the mean to n values leaves the mean where it was. */
  lemma MeanAfterAddingMeans(total: real, n: real, c: real, m: real)
    requires n > 0.0 && c >= 0.0 && m == total / n
    ensures (total + c * m) / (n + c) == m
  {
    assert total == m * n;
    assert total + c * m == m * (n + c);
  }

  lemma MeanIs(q: seq<real>, total: real, count: real)
    requires |q| > 0 && Sum(q) == total && |q| as real == count
    ensures Mean(q) == total / count
  {
  }

  lemma MeanOfFilled(p: seq<real>, q: seq<real>, c: nat, m: real)
    requires |p| > 0 && m == Mean(p)
    requires Sum(q) == Sum(p) + Copies(c, m) && |q| == |p| + c
    ensures |q| > 0 && Mean(q) == m
  {
    var n := |p| as real;
    CopiesIs(c, m);
    MeanAfterAddingMeans(Sum(p), n, c as real, m);
    MeanIs(q, Sum(p) + c as real * m, n + c as real);
  }

  /** Filling with the mean leaves the column's mean unchanged. */
  lemma FillWithMeanKeepsMean(xs: seq<Option<real>>)
    ensures ColumnMean(FillWithMean(xs)) == ColumnMean(xs)
  {
    if |Present(xs)| > 0 {
      FilledMean(xs);
    } else {
      assert FillWithMean(xs) == xs;
    }
  }

  lemma FilledMean(xs: seq<Option<real>>)
    requires |Present(xs)| > 0
    ensures ColumnMean(FillWithMean(xs)) == ColumnMean(xs)
  {
    var p := Present(xs);
    var m := Mean(p);
    assert ColumnMean(xs) == Some(m);
    assert FillWithMean(xs) == FillWith(xs, Some(m));
    var q := Present(FillWith(xs, Some(m)));
    FillWithSum(xs, m);
    FillWithCount(xs, m);
    MeanOfFilled(p, q, CountTrue(QualityChecker.MissingMask(Numbers(xs))), m);
  }

  /** `fillna("unknown")` on a text column. */
  function FillUnknown(ss: seq<Option<string>>): (r: seq<Option<string>>)
    ensures |r| == |ss|
    ensures forall i :: 0 <= i < |ss| ==> r[i].Some? && (ss[i].Some? ==> r[i] == ss[i])
    ensures forall i :: 0 <= i < |ss| && ss[i].None? ==> r[i] == Some(Unknown)
  {
    seq(|ss|, i requires 0 <= i < |ss| => if ss[i].Some? then ss[i] else Some(Unknown))
  }

  /** Steps 3 and 4 on one column: numeric columns by their mean, text columns by
      "unknown"; categorical columns are left alone. */
  function FillColumn(c: Column): (r: Column)
    ensures r.name == c.name && DTypeOf(r.cells) == DTypeOf(c.cells) && Length(r.cells) == Length(c.cells)
  {
    match c.cells
    case Numbers(xs) => Column(c.name, Numbers(FillWithMean(xs)))
    case Texts(ss) => Column(c.name, Texts(FillUnknown(ss)))
    case Labels(_) => c
  }

  /** Step 5 on one column. */
  function TreatColumn(c: Column): (r: Column)
    ensures r.name == c.name && DTypeOf(r.cells) == DTypeOf(c.cells) && Length(r.cells) == Length(c.cells)
  {
    if c.cells.Numbers? then Column(c.name, Numbers(TreatOutliersWithMean(c.cells.xs))) else c
  }

  /** Steps 3 and 4 on every column. */
  function FillColumns(cols: seq<Column>): (r: seq<Column>)
    ensures |r| == |cols| && forall c :: 0 <= c < |cols| ==> r[c] == FillColumn(cols[c])
  {
    seq(|cols|, c requires 0 <= c < |cols| => FillColumn(cols[c]))
  }

  /** Steps 3 to 5 on every column. */
  function CleanColumns(cols: seq<Column>): (r: seq<Column>)
    ensures |r| == |cols| && forall c :: 0 <= c < |cols| ==> r[c] == TreatColumn(FillColumn(cols[c]))
  {
    seq(|cols|, c requires 0 <= c < |cols| => TreatColumn(FillColumn(cols[c])))
  }

  /** The frame clean_data returns. */
  function Cleaned(t: Table, critical: seq<string>): (r: Result<Table, Error>)
    requires WellFormed(t)
  {
    match DropNa(DropDuplicates(t), critical)
    case Err(e) => Err(e)
    case Ok(d) => Ok(Table(d.index, CleanColumns(d.columns)))
  }

  /** The columns after the treatment loop has handled the first k of them. */
  function Treated(cols: seq<Column>, k: nat): (r: seq<Column>)
    requires k <= |cols|
    ensures |r| == |cols|
  {
    seq(|cols|, j requires 0 <= j < |cols| => if j < k then TreatColumn(cols[j]) else cols[j])
  }

  lemma TreatedStep(cols: seq<Column>, k: nat)
    requires k < |cols|
    ensures Treated(cols, k + 1) == Treated(cols, k)[k := TreatColumn(cols[k])]
    ensures !cols[k].cells.Numbers? ==> Treated(cols, k + 1) == Treated(cols, k)
  {
  }

  lemma CleanedIs(t: Table, critical: seq<string>, d: Table)
    requires WellFormed(t) && DropNa(DropDuplicates(t), critical) == Ok(d)
    ensures Cleaned(t, critical) == Ok(Table(d.index, Treated(FillColumns(d.columns), |d.columns|)))
  {
    TreatedFilled(d.columns);
  }

  lemma TreatedFilled(cols: seq<Column>)
    ensures CleanColumns(cols) == Treated(FillColumns(cols), |cols|)
  {
    var filled := FillColumns(cols);
    assert forall j :: 0 <= j < |cols| ==> CleanColumns(cols)[j] == Treated(filled, |cols|)[j];
  }

  /** The treatment loop of clean_data: the outliers of each numeric column in turn. */
  method TreatAll(filled: seq<Column>) returns (cols: seq<Column>)
    ensures cols == Treated(filled, |filled|)
  {
    cols := filled;
    assert cols == Treated(filled, 0);
    for c := 0 to |filled|
      invariant cols == Treated(filled, c)
    {
      TreatedStep(filled, c);
      if cols[c].cells.Numbers? {
        cols := cols[c := TreatColumn(cols[c])];
      }
    }
  }

  /** clean_data: drop duplicates, drop rows missing a critical value, fill the other
      gaps, then treat the outliers of every numeric column one column at a time. */
  method CleanData(t: Table, critical: seq<string>) returns (r: Result<Table, Error>)
    requires WellFormed(t)
    ensures r == Cleaned(t, critical)
  {
    var data := DropDuplicates(t);
    var dropped := DropNa(data, critical);
    if dropped.Err? {
      return Err(dropped.error);
    }
    data := dropped.value;
    var filled := FillColumns(data.columns);
    var cols := TreatAll(filled);
    CleanedIs(t, critical, data);
    r := Ok(Table(data.index, cols));
  }

  /** One column through steps 3 to 5: its name, dtype and length are kept and no
      value goes missing; a text column keeps its values and its missing cells become
      "unknown", a numeric column ends complete unless it had no value at all, and a categorical
      column is untouched. */
  lemma CleanedColumn(c: Column)
    ensures var r := TreatColumn(FillColumn(c));
      && r.name == c.name && DTypeOf(r.cells) == DTypeOf(c.cells) && Length(r.cells) == Length(c.cells)
      && (forall i :: 0 <= i < Length(c.cells) && CellAt(c.cells, i).Some? ==> CellAt(r.cells, i).Some?)
      && (c.cells.Texts? ==> forall i :: 0 <= i < Length(c.cells) ==>
            CellAt(r.cells, i) == if CellAt(c.cells, i).Some? then CellAt(c.cells, i) else Some(Txt(Unknown)))
      && (c.cells.Numbers? ==> forall i :: 0 <= i < Length(c.cells) ==>
            (CellAt(r.cells, i).Some? <==> |Present(c.cells.xs)| > 0))
      && (c.cells.Labels? ==> r == c)
  {
    if c.cells.Numbers? {
      NumericColumnCleaned(c.cells.xs);
    } else if c.cells.Texts? {
      var f := FillUnknown(c.cells.ss);
      assert TreatColumn(FillColumn(c)).cells == Texts(f);
      assert forall i :: 0 <= i < |f| ==> f[i].Some?;
    }
  }

  /** A numeric column through fillna(mean) and the outlier treatment: a missing cell
      ends as the mean of the column's present values, a present value either stays or
      is replaced by that same mean (filling with the mean does not move it). */
  lemma NumericColumnCleaned(xs: seq<Option<real>>)
    ensures var r := TreatOutliersWithMean(FillWithMean(xs));
      && |r| == |xs|
      && (forall i :: 0 <= i < |xs| ==> (r[i].Some? <==> |Present(xs)| > 0))
      && (forall i :: 0 <= i < |xs| && xs[i].None? ==> r[i] == ColumnMean(xs))
      && (forall i :: 0 <= i < |xs| && xs[i].Some? ==> r[i] == xs[i] || r[i] == ColumnMean(xs))
  {
    var f := FillWithMean(xs);
    var r := TreatOutliersWithMean(f);
    FillWithMeanKeepsMean(xs);
    FilledPresence(xs);
    forall i | 0 <= i < |xs|
      ensures (r[i].Some? <==> |Present(xs)| > 0)
      ensures xs[i].None? ==> r[i] == ColumnMean(xs)
      ensures xs[i].Some? ==> r[i] == xs[i] || r[i] == ColumnMean(xs)
    {
      assert r[i].Some? <==> f[i].Some?;
      assert r[i] == f[i] || r[i] == ColumnMean(f);
    }
  }

  /** After fillna(mean) a cell is present exactly when the column has a value. */
  lemma FilledPresence(xs: seq<Option<real>>)
    ensures forall i :: 0 <= i < |xs| ==> (FillWithMean(xs)[i].Some? <==> |Present(xs)| > 0)
  {
    PresentNonEmpty(xs);
    var f := FillWithMean(xs);
    forall i | 0 <= i < |xs| ensures f[i].Some? <==> |Present(xs)| > 0 {
      if xs[i].Some? {
        assert f[i] == xs[i];
      } else {
        assert f[i] == ColumnMean(xs);
      }
    }
  }

  /** Every row dropna keeps has a value in every critical column. */
  lemma DropNaComplete(t: Table, critical: seq<string>, k: nat, i: nat)
    requires WellFormed(t) && DropNa(t, critical).Ok?
    requires k < |critical| && i < |DropNa(t, critical).value.index|
    ensures CellPresent(DropNa(t, critical).value, critical[k], i)
  {
    var m := CompleteMask(t, critical);
    var d := FilterRows(t, m);
    assert DropNa(t, critical).value == d;
    var j := Kept(m)[i];
    assert m[j];
    assert CellPresent(t, critical[k], j);
    var c := Find(t.columns, critical[k]).value;
    FindByNames(t.columns, d.columns, critical[k]);
    assert CellAt(d.columns[c].cells, i) == CellAt(t.columns[c].cells, j);
  }

  /** The frame clean_data returns, from the frame dropna returns. */
  lemma CleanedFrom(t: Table, critical: seq<string>, d: Table)
    requires WellFormed(t) && DropNa(DropDuplicates(t), critical) == Ok(d)
    ensures Cleaned(t, critical) == Ok(Table(d.index, CleanColumns(d.columns)))
  {
  }

  lemma SameColumnsTransitive(a: Table, b: Table, c: Table)
    requires SameColumns(a, b) && SameColumns(b, c)
    ensures SameColumns(a, c)
  {
  }

  /** Steps 3 to 5 keep the frame well formed and its columns. */
  lemma CleanColumnsShape(d: Table)
    requires WellFormed(d)
    ensures var r := Table(d.index, CleanColumns(d.columns));
      WellFormed(r) && SameColumns(d, r)
  {
    var r := Table(d.index, CleanColumns(d.columns));
    forall c | 0 <= c < |d.columns|
      ensures r.columns[c].name == d.columns[c].name
      ensures DTypeOf(r.columns[c].cells) == DTypeOf(d.columns[c].cells)
      ensures Length(r.columns[c].cells) == |r.index|
    {
      CleanedColumn(d.columns[c]);
    }
  }

  /** The frame clean_data returns has the columns of its input, with their dtypes. */
  lemma CleanedShape(t: Table, critical: seq<string>, r: Table)
    requires WellFormed(t) && Cleaned(t, critical) == Ok(r)
    ensures WellFormed(r) && SameColumns(t, r)
  {
    var dd := DropDuplicates(t);
    var d := DropNa(dd, critical).value;
    DropRowsKeepsColumns(t, critical);
    DropRowsKeepsColumns(dd, critical);
    CleanedFrom(t, critical, d);
    CleanColumnsShape(d);
    SameColumnsTransitive(t, dd, d);
    SameColumnsTransitive(t, d, r);
  }

  /** Every row of r has a value in every critical column. */
  predicate CriticalComplete(r: Table, critical: seq<string>)
    requires WellFormed(r)
  {
    forall k, i :: 0 <= k < |critical| && 0 <= i < |r.index| ==> CellPresent(r, critical[k], i)
  }

  /** No text column of r has a missing cell. */
  predicate TextsComplete(r: Table)
    requires WellFormed(r)
  {
    forall c, i :: 0 <= c < |r.columns| && r.columns[c].cells.Texts? && 0 <= i < |r.index| ==>
      CellAt(r.columns[c].cells, i).Some?
  }

  /** Every numeric column of r is either complete or missing in every row. */
  predicate NumbersAllOrNothing(r: Table)
    requires WellFormed(r)
  {
    forall c, i, j ::
      (0 <= c < |r.columns| && r.columns[c].cells.Numbers? &&
       0 <= i < |r.index| && 0 <= j < |r.index| && CellAt(r.columns[c].cells, j).Some?) ==>
      CellAt(r.columns[c].cells, i).Some?
  }

  /** Steps 3 to 5 applied to each column of d. */
  lemma FilledGaps(d: Table, r: Table)
    requires WellFormed(d) && WellFormed(r) && r == Table(d.index, CleanColumns(d.columns))
    ensures TextsComplete(r) && NumbersAllOrNothing(r)
    ensures forall c, i :: 0 <= c < |d.columns| && 0 <= i < |d.index| && CellAt(d.columns[c].cells, i).Some? ==>
      CellAt(r.columns[c].cells, i).Some?
  {
    forall c | 0 <= c < |d.columns| {
      CleanedColumn(d.columns[c]);
    }
  }

  /** The critical columns that dropna left complete stay complete. */
  lemma CriticalStaysComplete(d: Table, critical: seq<string>, r: Table)
    requires WellFormed(d) && CriticalComplete(d, critical)
    requires WellFormed(r) && r.index == d.index && SameColumns(d, r)
    requires forall c, i :: 0 <= c < |d.columns| && 0 <= i < |d.index| && CellAt(d.columns[c].cells, i).Some? ==>
      CellAt(r.columns[c].cells, i).Some?
    ensures CriticalComplete(r, critical)
  {
    forall k, i | 0 <= k < |critical| && 0 <= i < |r.index| ensures CellPresent(r, critical[k], i) {
      assert CellPresent(d, critical[k], i);
      FindByNames(d.columns, r.columns, critical[k]);
    }
  }

  /** dropna leaves every critical column complete. */
  lemma DropNaLeavesCriticalComplete(dd: Table, critical: seq<string>)
    requires WellFormed(dd) && DropNa(dd, critical).Ok?
    ensures CriticalComplete(DropNa(dd, critical).value, critical)
  {
    forall k, i | 0 <= k < |critical| && 0 <= i < |DropNa(dd, critical).value.index|
      ensures CellPresent(DropNa(dd, critical).value, critical[k], i)
    {
      DropNaComplete(dd, critical, k, i);
    }
  }

  /** What clean_data guarantees of the rows it keeps: a value in every critical
      column and in every text column, and in every numeric column unless that column
      has no value in any row. */
  lemma CleanedGaps(t: Table, critical: seq<string>, r: Table)
    requires WellFormed(t) && Cleaned(t, critical) == Ok(r)
    ensures WellFormed(r) && CriticalComplete(r, critical) && TextsComplete(r) && NumbersAllOrNothing(r)
  {
    var dd := DropDuplicates(t);
    var d := DropNa(dd, critical).value;
    CleanedFrom(t, critical, d);
    CleanColumnsShape(d);
    FilledGaps(d, r);
    DropNaLeavesCriticalComplete(dd, critical);
    CriticalStaysComplete(d, critical, r);
  }

  /** The rows of r come from the rows p[0] < p[1] < … of t: each p[j] is the first
      occurrence of its row, the index label is carried over, no value present in t
      is missing in r, and text and categorical values are carried over unchanged. */
  ghost predicate RowOrigins(t: Table, r: Table, p: seq<nat>)
    requires WellFormed(t) && WellFormed(r) && SameColumns(t, r)
  {
    && |p| == |r.index|
    && (forall j :: 0 <= j < |p| ==> p[j] < |t.index| && r.index[j] == t.index[p[j]])
    && (forall j, k :: 0 <= j < k < |p| ==> p[j] < p[k])
    && (|t.columns| > 0 ==> forall j, i :: 0 <= j < |p| && 0 <= i < p[j] ==> Row(t, i) != Row(t, p[j]))
    && (forall j, c :: 0 <= j < |p| && 0 <= c < |t.columns| && CellAt(t.columns[c].cells, p[j]).Some? ==>
          CellAt(r.columns[c].cells, j).Some?)
    && (forall j, c ::
          (0 <= j < |p| && 0 <= c < |t.columns| && !t.columns[c].cells.Numbers? &&
           CellAt(t.columns[c].cells, p[j]).Some?) ==>
          CellAt(r.columns[c].cells, j) == CellAt(t.columns[c].cells, p[j]))
  }

  /** Every position drop_duplicates keeps holds the first occurrence of its row. */
  lemma KeptFirstOccurrences(t: Table)
    requires WellFormed(t)
    ensures var p := Kept(FirstOccurrenceMask(t));
      |t.columns| > 0 ==> forall x, i :: 0 <= x < |p| && 0 <= i < p[x] ==> Row(t, i) != Row(t, p[x])
  {
    var m := FirstOccurrenceMask(t);
    var p := Kept(m);
    if |t.columns| > 0 {
      forall x | 0 <= x < |p| ensures forall i :: 0 <= i < p[x] ==> Row(t, i) != Row(t, p[x]) {
        assert m[p[x]];
      }
    }
  }

  /** Steps 3 to 5 keep every present value present and every text or categorical
      value as it was. */
  lemma CleanColumnsKeepCells(t: Table, d: Table, r: Table, p: seq<nat>)
    requires WellFormed(t) && WellFormed(d) && SameColumns(t, d) && RowsFrom(t, d, p)
    requires r == Table(d.index, CleanColumns(d.columns))
    requires WellFormed(r) && SameColumns(t, r)
    requires |t.columns| > 0 ==> forall j, i :: 0 <= j < |p| && 0 <= i < p[j] ==> Row(t, i) != Row(t, p[j])
    ensures RowOrigins(t, r, p)
  {
    forall c | 0 <= c < |d.columns| {
      CleanedColumn(d.columns[c]);
    }
  }

  /** drop_duplicates keeps, in order, the first occurrence of every row. */
  lemma DeduplicatedRows(t: Table)
    requires WellFormed(t)
    ensures var dd := DropDuplicates(t);
      var p := Kept(FirstOccurrenceMask(t));
      && SameColumns(t, dd) && RowsFrom(t, dd, p)
      && (|t.columns| > 0 ==> forall j, i :: 0 <= j < |p| && 0 <= i < p[j] ==> Row(t, i) != Row(t, p[j]))
  {
    var m1 := FirstOccurrenceMask(t);
    assert DropDuplicates(t) == FilterRows(t, m1);
    DropRowsKeepsColumns(t, []);
    FilterRowsFrom(t, m1);
    KeptFirstOccurrences(t);
  }

  /** dropna keeps, in order, the rows complete in the critical columns. */
  lemma CompleteRows(dd: Table, critical: seq<string>)
    requires WellFormed(dd) && DropNa(dd, critical).Ok?
    ensures var d := DropNa(dd, critical).value;
      SameColumns(dd, d) && RowsFrom(dd, d, Kept(CompleteMask(dd, critical)))
  {
    var m2 := CompleteMask(dd, critical);
    assert DropNa(dd, critical).value == FilterRows(dd, m2);
    DropRowsKeepsColumns(dd, critical);
    FilterRowsFrom(dd, m2);
  }

  /** The source positions of the rows drop_duplicates then dropna keep. */
  function SurvivingRows(t: Table, critical: seq<string>): (p: seq<nat>)
    requires WellFormed(t)
    ensures forall j :: 0 <= j < |p| ==> p[j] < |t.index|
  {
    Compose(Kept(FirstOccurrenceMask(t)), Kept(CompleteMask(DropDuplicates(t), critical)))
  }

  /** Row i is the first copy of its row (every row is, in a frame without columns)
      and has a value in every critical column. */
  ghost predicate Survives(t: Table, critical: seq<string>, i: nat)
    requires WellFormed(t) && i < |t.index|
  {
    && (|t.columns| == 0 || forall j :: 0 <= j < i ==> Row(t, j) != Row(t, i))
    && forall k :: 0 <= k < |critical| ==> CellPresent(t, critical[k], i)
  }

  /** Row x of the deduplicated frame has every critical cell exactly when its source
      row does. */
  lemma CompleteAtSource(t: Table, critical: seq<string>, x: nat)
    requires WellFormed(t) && x < |DropDuplicates(t).index|
    ensures var p1 := Kept(FirstOccurrenceMask(t));
      x < |p1| && p1[x] < |t.index| &&
      (CompleteMask(DropDuplicates(t), critical)[x] <==>
        forall k :: 0 <= k < |critical| ==> CellPresent(t, critical[k], p1[x]))
  {
    var dd := DropDuplicates(t);
    var p1 := Kept(FirstOccurrenceMask(t));
    DeduplicatedRows(t);
    forall k | 0 <= k < |critical|
      ensures CellPresent(dd, critical[k], x) <==> CellPresent(t, critical[k], p1[x])
    {
      FindByNames(t.columns, dd.columns, critical[k]);
    }
  }

  /** The rows clean_data keeps are exactly the first copies with every critical cell. */
  lemma SurvivingRowsExactly(t: Table, critical: seq<string>)
    requires WellFormed(t)
    ensures forall i :: 0 <= i < |t.index| ==> (i in SurvivingRows(t, critical) <==> Survives(t, critical, i))
  {
    var p := SurvivingRows(t, critical);
    forall i | 0 <= i < |t.index|
      ensures i in p <==> Survives(t, critical, i)
    {
      if i in p {
        var y :| 0 <= y < |p| && p[y] == i;
        SurvivorIsEligible(t, critical, y);
      }
      if Survives(t, critical, i) {
        EligibleSurvives(t, critical, i);
      }
    }
  }

  lemma SurvivorIsEligible(t: Table, critical: seq<string>, y: nat)
    requires WellFormed(t) && y < |SurvivingRows(t, critical)|
    ensures Survives(t, critical, SurvivingRows(t, critical)[y])
  {
    var m1 := FirstOccurrenceMask(t);
    var p1 := Kept(m1);
    var m2 := CompleteMask(DropDuplicates(t), critical);
    var x := Kept(m2)[y];
    assert m2[x];
    CompleteAtSource(t, critical, x);
    assert SurvivingRows(t, critical)[y] == p1[x] && m1[p1[x]];
  }

  lemma EligibleSurvives(t: Table, critical: seq<string>, i: nat)
    requires WellFormed(t) && i < |t.index| && Survives(t, critical, i)
    ensures i in SurvivingRows(t, critical)
  {
    var m1 := FirstOccurrenceMask(t);
    var p1 := Kept(m1);
    var m2 := CompleteMask(DropDuplicates(t), critical);
    var p2 := Kept(m2);
    assert m1[i];
    var x :| 0 <= x < |p1| && p1[x] == i;
    CompleteAtSource(t, critical, x);
    assert m2[x];
    var y :| 0 <= y < |p2| && p2[y] == x;
    assert SurvivingRows(t, critical)[y] == i;
  }

  /** drop_duplicates then dropna keep, in order, exactly the first copies of the input
      rows that have every critical cell. */
  lemma DroppedRows(t: Table, critical: seq<string>)
    requires WellFormed(t) && DropNa(DropDuplicates(t), critical).Ok?
    ensures var d := DropNa(DropDuplicates(t), critical).value;
      var p := SurvivingRows(t, critical);
      && SameColumns(t, d) && RowsFrom(t, d, p)
      && (|t.columns| > 0 ==> forall j, i :: 0 <= j < |p| && 0 <= i < p[j] ==> Row(t, i) != Row(t, p[j]))
      && (forall i :: 0 <= i < |t.index| ==> (i in p <==> Survives(t, critical, i)))
  {
    var dd := DropDuplicates(t);
    var d := DropNa(dd, critical).value;
    var p1 := Kept(FirstOccurrenceMask(t));
    var p2 := Kept(CompleteMask(dd, critical));
    DeduplicatedRows(t);
    CompleteRows(dd, critical);
    SameColumnsTransitive(t, dd, d);
    RowsFromCompose(t, dd, d, p1, p2);
    ComposeFirstOccurrences(t, p1, p2);
    SurvivingRowsExactly(t, critical);
  }

  lemma ComposeFirstOccurrences(t: Table, p1: seq<nat>, p2: seq<nat>)
    requires WellFormed(t)
    requires forall j :: 0 <= j < |p1| ==> p1[j] < |t.index|
    requires forall j :: 0 <= j < |p2| ==> p2[j] < |p1|
    requires |t.columns| > 0 ==> forall j, i :: 0 <= j < |p1| && 0 <= i < p1[j] ==> Row(t, i) != Row(t, p1[j])
    ensures var p := Compose(p1, p2);
      |t.columns| > 0 ==> forall j, i :: 0 <= j < |p| && 0 <= i < p[j] ==> Row(t, i) != Row(t, p[j])
  {
    var p := Compose(p1, p2);
    forall j | 0 <= j < |p| ensures p[j] == p1[p2[j]] && p[j] < |t.index| {
    }
  }

  /** clean_data keeps, in order and with their index labels, exactly the first copies
      of the input rows that have every critical cell, and loses none of their values. */
  lemma CleanedRows(t: Table, critical: seq<string>, r: Table)
    requires WellFormed(t) && Cleaned(t, critical) == Ok(r)
    ensures WellFormed(r) && SameColumns(t, r)
    ensures RowOrigins(t, r, SurvivingRows(t, critical))
    ensures forall i :: 0 <= i < |t.index| ==> (i in SurvivingRows(t, critical) <==> Survives(t, critical, i))
  {
    var d := DropNa(DropDuplicates(t), critical).value;
    var p := SurvivingRows(t, critical);
    DroppedRows(t, critical);
    CleanedShape(t, critical, r);
    CleanedFrom(t, critical, d);
    CleanColumnsKeepCells(t, d, r, p);
  }
}
