/**
 * The argmin scan shared by both classifiers: walk a list of candidate point
 * indices with their squared distances to the query, and keep the first one
 * whose distance is strictly below the best so far.
 */
module Nearest {
  import opened Geometry

  /** The initial best squared distance of findClosestPointIndex. */
  const Unreached: real := 1e30

  /** Every candidate is an index into ps. */
  predicate ValidIndices(ps: seq<Point>, cands: seq<int>)
  {
    forall k :: 0 <= k < |cands| ==> 0 <= cands[k] < |ps|
  }

  /** The squared distance from the query q to each candidate, in order. */
  function DistsTo(ps: seq<Point>, q: Point, cands: seq<int>): (ds: seq<real>)
    requires ValidIndices(ps, cands)
    ensures |ds| == |cands|
    ensures forall j :: 0 <= j < |cands| ==> ds[j] == DistSqr(ps[cands[j]], q)
  {
    seq(|cands|, j requires 0 <= j < |cands| => DistSqr(ps[cands[j]], q))
  }

  /**
   * The loop of findClosestPointIndex (and of its brute-force predecessor) as a
   * left fold over candidates cands with distances ds: the index kept after
   * scanning them all, starting from the best distance bestD and index bestI.
   */
  function ScanClosest(ds: seq<real>, cands: seq<int>, bestD: real, bestI: int): (i: int)
    requires |ds| == |cands|
    ensures i == bestI || i in cands
    decreases |cands|
  {
    if cands == [] then bestI
    else if ds[0] < bestD then ScanClosest(ds[1..], cands[1..], ds[0], cands[0])
    else ScanClosest(ds[1..], cands[1..], bestD, bestI)
  }

  /**
   * Position k holds the first minimum of the distances, and that minimum is
   * below the bound.
   */
  predicate FirstMinimum(ds: seq<real>, k: int, bound: real)
  {
    0 <= k < |ds| && ds[k] < bound &&
    (forall j :: 0 <= j < k ==> ds[k] < ds[j]) &&
    (forall j :: k < j < |ds| ==> ds[k] <= ds[j])
  }

  /** When no candidate beats the starting distance, the fold keeps the starting index. */
  lemma {:induction false} ScanKeepsStart(ds: seq<real>, cands: seq<int>, bestD: real, bestI: int)
    requires |ds| == |cands|
    requires forall j :: 0 <= j < |ds| ==> bestD <= ds[j]
    ensures ScanClosest(ds, cands, bestD, bestI) == bestI
    decreases |cands|
  {
    if cands != [] {
      assert bestD <= ds[0];
      ScanKeepsStart(ds[1..], cands[1..], bestD, bestI);
    }
  }

  /** A first minimum of the tail that the head does not beat is one of the whole list. */
  lemma ShiftFirstMinimum(ds: seq<real>, t: int, tailBound: real, bound: real)
    requires ds != [] && FirstMinimum(ds[1..], t, tailBound)
    requires tailBound <= ds[0] && tailBound <= bound
    ensures FirstMinimum(ds, t + 1, bound)
  {
    assert forall j :: 1 <= j < |ds| ==> ds[1..][j - 1] == ds[j];
  }

  /**
   * When some candidate beats the starting distance, the fold returns the
   * candidate at the first minimum: ties go to the earliest one.
   */
  lemma {:induction false} ScanFindsFirstMinimum(ds: seq<real>, cands: seq<int>, bestD: real, bestI: int)
    returns (k: int)
    requires |ds| == |cands|
    requires exists j :: 0 <= j < |ds| && ds[j] < bestD
    ensures FirstMinimum(ds, k, bestD)
    ensures ScanClosest(ds, cands, bestD, bestI) == cands[k]
    decreases |cands|
  {
    var tail := ds[1..];
    if ds[0] < bestD {
      if exists j :: 0 <= j < |tail| && tail[j] < ds[0] {
        var t := ScanFindsFirstMinimum(tail, cands[1..], ds[0], cands[0]);
        ShiftFirstMinimum(ds, t, ds[0], bestD);
        k := t + 1;
      } else {
        ScanKeepsStart(tail, cands[1..], ds[0], cands[0]);
        assert forall j :: 1 <= j < |ds| ==> tail[j - 1] == ds[j];
        k := 0;
      }
    } else {
      var j :| 0 <= j < |ds| && ds[j] < bestD;
      assert tail[j - 1] < bestD;
      var t := ScanFindsFirstMinimum(tail, cands[1..], bestD, bestI);
      ShiftFirstMinimum(ds, t, bestD, bestD);
      k := t + 1;
    }
  }

  /** The indices 0, 1, ..., n-1, as enumerate(points) visits them. */
  function AllIndices(n: nat): (s: seq<int>)
    ensures |s| == n && forall k :: 0 <= k < n ==> s[k] == k
  {
    seq(n, k => k)
  }

  /** The points at the given indices, in order. */
  function PointsAt(ps: seq<Point>, ni: seq<int>): (pts: seq<Point>)
    requires ValidIndices(ps, ni)
    ensures |pts| == |ni| && forall j :: 0 <= j < |ni| ==> pts[j] == ps[ni[j]]
  {
    seq(|ni|, j requires 0 <= j < |ni| => ps[ni[j]])
  }

  /**
   * The argmin loop of both classifiers: scan cands in order from the best
   * distance initD and index -1, replacing the best on a strictly smaller
   * squared distance.
   */
  method ClosestAmong(ps: seq<Point>, q: Point, cands: seq<int>, initD: real) returns (bestIndex: int)
    requires ValidIndices(ps, cands)
    ensures bestIndex == ScanClosest(DistsTo(ps, q, cands), cands, initD, -1)
  {
    var bestDist := initD;
    bestIndex := -1;
    ghost var ds := DistsTo(ps, q, cands);
    var j := 0;
    while j < |cands|
      invariant 0 <= j <= |cands|
      invariant ScanClosest(ds[j..], cands[j..], bestDist, bestIndex) == ScanClosest(ds, cands, initD, -1)
    {
      var dSqr := DistSqr(ps[cands[j]], q);
      assert ds[j..][1..] == ds[j + 1..] && cands[j..][1..] == cands[j + 1..];
      if dSqr < bestDist {
        bestDist := dSqr;
        bestIndex := cands[j];
      }
      j := j + 1;
    }
    assert ds[j..] == [] && cands[j..] == [];
  }
}
