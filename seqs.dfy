/** Row selection by a boolean mask, pandas' boolean indexing on a sequence. */
module Seqs {

  /** The number of positions at which `keep` holds. */
  function CountTrue(keep: seq<bool>): (n: nat)
    ensures n <= |keep|
  {
    if |keep| == 0 then 0 else CountTrue(keep[..|keep| - 1]) + (if keep[|keep| - 1] then 1 else 0)
  }

  /** The positions at which `keep` holds, in increasing order. */
  function Kept(keep: seq<bool>): (r: seq<nat>)
    ensures |r| == CountTrue(keep)
    ensures forall j :: 0 <= j < |r| ==> r[j] < |keep| && keep[r[j]]
    ensures forall j, k :: 0 <= j < k < |r| ==> r[j] < r[k]
    ensures forall i :: 0 <= i < |keep| && keep[i] ==> i in r
  {
    if |keep| == 0 then []
    else Kept(keep[..|keep| - 1]) + (if keep[|keep| - 1] then [|keep| - 1] else [])
  }

  /** The elements of `s` at the positions where `keep` holds, in their original order. */
  function Filter<T>(s: seq<T>, keep: seq<bool>): (r: seq<T>)
    requires |s| == |keep|
    ensures |r| == CountTrue(keep)
  {
    if |s| == 0 then []
    else Filter(s[..|s| - 1], keep[..|s| - 1]) + (if keep[|s| - 1] then [s[|s| - 1]] else [])
  }

  /** The j-th kept element is the element at the j-th kept position. */
  lemma {:induction false} FilterAt<T>(s: seq<T>, keep: seq<bool>)
    requires |s| == |keep|
    ensures forall j :: 0 <= j < |Kept(keep)| ==> Filter(s, keep)[j] == s[Kept(keep)[j]]
  {
    if |s| > 0 {
      var n := |s| - 1;
      var s', keep' := s[..n], keep[..n];
      FilterAt(s', keep');
      SnocSplit(s);
      SnocSplit(keep);
      FilterSnoc(s', keep', s[n], keep[n]);
      KeptSnoc(keep', keep[n]);
      var f, p, p' := Filter(s, keep), Kept(keep), Kept(keep');
      forall j | 0 <= j < |p'|
        ensures f[j] == s[p[j]]
      {
        assert f[j] == Filter(s', keep')[j] && p[j] == p'[j];
        assert s'[p'[j]] == s[p'[j]];
      }
    }
  }

  /** Keeping every position keeps them all, in order. */
  lemma {:induction false} KeptAll(keep: seq<bool>)
    requires forall i :: 0 <= i < |keep| ==> keep[i]
    ensures |Kept(keep)| == |keep| && forall j :: 0 <= j < |keep| ==> Kept(keep)[j] == j
  {
    if |keep| > 0 {
      KeptAll(keep[..|keep| - 1]);
    }
  }

  lemma KeptSnoc(keep: seq<bool>, k: bool)
    ensures Kept(keep + [k]) == Kept(keep) + (if k then [|keep|] else [])
  {
    assert (keep + [k])[..|keep|] == keep;
  }

  /** A kept element of a sequence built position by position is built from its kept position. */
  lemma FilterContains<T>(s: seq<T>, keep: seq<bool>, x: T)
    requires |s| == |keep|
    ensures x in Filter(s, keep) <==> exists i :: 0 <= i < |s| && keep[i] && s[i] == x
  {
    FilterAt(s, keep);
    var f, p := Filter(s, keep), Kept(keep);
    if x in f {
      var j :| 0 <= j < |f| && f[j] == x;
      assert keep[p[j]] && s[p[j]] == x;
    }
    if exists i :: 0 <= i < |s| && keep[i] && s[i] == x {
      var i :| 0 <= i < |s| && keep[i] && s[i] == x;
      assert i in p;
      var j :| 0 <= j < |p| && p[j] == i;
      assert f[j] == x;
    }
  }

  lemma SnocSplit<T>(b: seq<T>)
    requires |b| > 0
    ensures b == b[..|b| - 1] + [b[|b| - 1]]
  {
  }

  lemma FilterSnoc<T>(s: seq<T>, keep: seq<bool>, x: T, k: bool)
    requires |s| == |keep|
    ensures Filter(s + [x], keep + [k]) == Filter(s, keep) + (if k then [x] else [])
  {
    assert (s + [x])[..|s|] == s && (keep + [k])[..|keep|] == keep;
  }

  /** The positions `p[q[0]], p[q[1]], …`: a selection from a selection. */
  function Compose(p: seq<nat>, q: seq<nat>): (r: seq<nat>)
    requires forall j :: 0 <= j < |q| ==> q[j] < |p|
    ensures |r| == |q| && forall j :: 0 <= j < |q| ==> r[j] == p[q[j]]
  {
    seq(|q|, j requires 0 <= j < |q| => p[q[j]])
  }

  /** The distinct elements of `s`, each at its first occurrence. */
  function Dedup(s: seq<string>): (r: seq<string>)
    ensures forall x :: x in r <==> x in s
    ensures forall j, k :: 0 <= j < k < |r| ==> r[j] != r[k]
  {
    if |s| == 0 then []
    else
      var d := Dedup(s[..|s| - 1]);
      assert forall x :: x in s[..|s| - 1] ==> x in s;
      assert s == s[..|s| - 1] + [s[|s| - 1]];
      if s[|s| - 1] in d then d else d + [s[|s| - 1]]
  }

  /** `duplicated(keep='first')` with hashing: marks each element already seen,
      either in `seen` or earlier in `s`. */
  function DuplicatedFrom<T(==)>(s: seq<T>, seen: set<T>): (r: seq<bool>)
    ensures |r| == |s|
    ensures forall i :: 0 <= i < |s| ==>
      (r[i] <==> s[i] in seen || exists j :: 0 <= j < i && s[j] == s[i])
  {
    if |s| == 0 then []
    else
      var rest := DuplicatedFrom(s[1..], seen + {s[0]});
      var r := [s[0] in seen] + rest;
      assert forall i :: 1 <= i < |s| ==> (r[i] <==> rest[i - 1]);
      assert forall i :: 1 <= i < |s| ==>
        ((exists j :: 0 <= j < i - 1 && s[1..][j] == s[1..][i - 1]) <==>
         (exists j :: 1 <= j < i && s[j] == s[i]));
      r
  }

  /** Marks every element equal to an earlier one. */
  function Duplicated<T(==)>(s: seq<T>): (r: seq<bool>)
    ensures |r| == |s|
    ensures forall i :: 0 <= i < |s| ==> (r[i] <==> exists j :: 0 <= j < i && s[j] == s[i])
  {
    DuplicatedFrom(s, {})
  }
}
