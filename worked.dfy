/** A worked example: the wind-speed column [1, 2, 3, 100] carried through the IQR
    fences, detect_outliers_iqr and treat_outliers_with_mean. */
module WorkedExample {
  import opened Wrappers
  import opened Seqs
  import opened Stats
  import opened QualityChecker
  import DataClean

  lemma {:induction false} SumOfFour(w: real, x: real, y: real, z: real)
    ensures Sum([w, x, y, z]) == w + x + y + z
  {
    var e: seq<real> := [];
    DataClean.SumSnoc(e, w);
    assert e + [w] == [w];
    DataClean.SumSnoc([w], x);
    assert [w] + [x] == [w, x];
    DataClean.SumSnoc([w, x], y);
    assert [w, x] + [y] == [w, x, y];
    DataClean.SumSnoc([w, x, y], z);
    assert [w, x, y] + [z] == [w, x, y, z];
  }

  lemma {:induction false} CountTrueOfFour(a: bool, b: bool, c: bool, d: bool)
    ensures CountTrue([a, b, c, d]) == (if a then 1 else 0) + (if b then 1 else 0) + (if c then 1 else 0) + (if d then 1 else 0)
  {
    var e: seq<bool> := [];
    assert [a][..0] == e && CountTrue(e) == 0;
    assert CountTrue([a]) == (if a then 1 else 0);
    assert [a, b][..1] == [a];
    assert CountTrue([a, b]) == CountTrue([a]) + (if b then 1 else 0);
    assert [a, b, c][..2] == [a, b];
    assert CountTrue([a, b, c]) == CountTrue([a, b]) + (if c then 1 else 0);
    assert [a, b, c, d][..3] == [a, b, c];
  }

  /** The present values of the column, in ascending order. */
  lemma WindSpeedsPresent(ws: seq<Option<real>>)
    requires ws == [Some(1.0), Some(2.0), Some(3.0), Some(100.0)]
    ensures Present(ws) == [1.0, 2.0, 3.0, 100.0]
    ensures Sort(Present(ws)) == Present(ws)
  {
    PresentOfComplete(ws);
    var v := Present(ws);
    assert v == [1.0, 2.0, 3.0, 100.0] by {
      assert forall i :: 0 <= i < 4 ==> v[i] == ws[i].value;
    }
    SortOfSorted(v);
  }

  /** Q1 = 1.75 and Q3 = 27.25, so the fences are -36.5 and 65.5. */
  lemma WindSpeedsBounds(ws: seq<Option<real>>)
    requires ws == [Some(1.0), Some(2.0), Some(3.0), Some(100.0)]
    ensures IqrBounds(ws) == Some(Bounds(1.75, 27.25, -36.5, 65.5))
  {
    WindSpeedsPresent(ws);
    var v := Present(ws);
    assert Position(4, 0.25) == 0.75 && (0.75).Floor == 0;
    assert Position(4, 0.75) == 2.25 && (2.25).Floor == 2;
    assert Quantile(v, 0.25) == 1.75;
    assert Quantile(v, 0.75) == 27.25;
  }

  /** The column mean is 106 / 4 = 26.5. */
  lemma WindSpeedsMean(ws: seq<Option<real>>)
    requires ws == [Some(1.0), Some(2.0), Some(3.0), Some(100.0)]
    ensures ColumnMean(ws) == Some(26.5)
  {
    WindSpeedsPresent(ws);
    SumOfFour(1.0, 2.0, 3.0, 100.0);
  }

  /** 100 alone lies outside the fences -36.5 and 65.5. */
  lemma WindSpeedsMask(ws: seq<Option<real>>)
    requires ws == [Some(1.0), Some(2.0), Some(3.0), Some(100.0)]
    ensures OutlierMask(ws) == [false, false, false, true]
  {
    WindSpeedsBounds(ws);
    var m := OutlierMask(ws);
    assert !m[0] && !m[1] && !m[2] && m[3];
  }

  /** detect_outliers_iqr counts one outlier in the column and treat_outliers_with_mean
      replaces it by the mean 26.5. */
  lemma WindSpeedExample(ws: seq<Option<real>>)
    requires ws == [Some(1.0), Some(2.0), Some(3.0), Some(100.0)]
    ensures OutlierCount(ws) == 1
    ensures DataClean.TreatOutliersWithMean(ws) == [Some(1.0), Some(2.0), Some(3.0), Some(26.5)]
  {
    WindSpeedsMask(ws);
    WindSpeedsMean(ws);
    CountTrueOfFour(false, false, false, true);
    var r := DataClean.TreatOutliersWithMean(ws);
    assert forall i :: 0 <= i < 4 ==> r[i] == if i == 3 then Some(26.5) else ws[i];
  }
}
