/**
 * The random draws of the sampler. The generator's calls to random.uniform and
 * random.randrange are driven by a supplied sequence of unit draws, each in
 * [0, 1) like random.random(); every property is stated for every such sequence.
 * The sequence is finite, so a rejection loop that could run forever in the
 * source instead stops, with nothing, when the supply runs out.
 */
module Draws {
  import opened Geometry

  datatype Option<T> = None | Some(value: T)

  /** Every draw is a unit draw, in [0, 1). */
  predicate UnitDraws(rand: seq<real>)
  {
    forall i :: 0 <= i < |rand| ==> 0.0 <= rand[i] < 1.0
  }

  /** rest is what remains of rand after some draws were taken from its front. */
  predicate Suffix(rest: seq<real>, rand: seq<real>)
  {
    |rest| <= |rand| && rest == rand[|rand| - |rest|..]
  }

  /** The remainder of a unit-draw supply is still one. */
  lemma SuffixUnit(rest: seq<real>, rand: seq<real>)
    requires Suffix(rest, rand) && UnitDraws(rand)
    ensures UnitDraws(rest)
  {
    forall i | 0 <= i < |rest|
      ensures 0.0 <= rest[i] < 1.0
    {
      assert rest[i] == rand[|rand| - |rest| + i];
    }
  }

  /** Taking draws is transitive. */
  lemma SuffixTrans(a: seq<real>, b: seq<real>, c: seq<real>)
    requires Suffix(a, b) && Suffix(b, c)
    ensures Suffix(a, c)
  {
    assert c[|c| - |b|..][|b| - |a|..] == c[|c| - |a|..];
  }

  /** A unit draw scales a width w to somewhere between 0 and w. */
  lemma ScaleUnit(w: real, u: real)
    requires 0.0 <= u < 1.0
    ensures 0.0 <= w ==> 0.0 <= w * u <= w
    ensures w <= 0.0 ==> w <= w * u <= 0.0
    ensures 0.0 < w ==> w * u < w
  {
  }

  /** random.uniform(a, b) for the unit draw u: a + (b - a) * u, between a and b. */
  function Uniform(a: real, b: real, u: real): (v: real)
    requires 0.0 <= u < 1.0
    ensures a <= b ==> a <= v <= b
    ensures b <= a ==> b <= v <= a
  {
    var w := b - a;
    var s := w * u;
    ScaleUnit(w, u);
    a + s
  }

  /** random.randrange(n) for the unit draw u: an index in [0, n). */
  function RandRange(n: int, u: real): (i: int)
    requires n > 0 && 0.0 <= u < 1.0
    ensures 0 <= i < n
  {
    var v := n as real * u;
    ScaleUnit(n as real, u);
    assert v.Floor as real <= v < n as real;
    v.Floor
  }

  /**
   * The k-th candidate genDisplacedPoint draws around center: both coordinates
   * uniform within maxR of the center, from draws 2k and 2k+1.
   */
  function CandidateAt(center: Point, maxR: real, rand: seq<real>, k: nat): (c: Point)
    requires UnitDraws(rand) && 2 * k + 1 < |rand|
    ensures 0.0 <= maxR ==>
              center.x - maxR <= c.x <= center.x + maxR &&
              center.y - maxR <= c.y <= center.y + maxR
  {
    Point(Uniform(center.x - maxR, center.x + maxR, rand[2 * k]),
          Uniform(center.y - maxR, center.y + maxR, rand[2 * k + 1]))
  }

  /** c lies in the closed annulus minR <= |c - center| <= maxR, squared. */
  predicate InAnnulus(center: Point, c: Point, minR: real, maxR: real)
  {
    minR * minR <= DistSqr(c, center) <= maxR * maxR
  }

  /** None of the first n candidates drawn from rand lies in the annulus. */
  predicate AllRejected(center: Point, minR: real, maxR: real, rand: seq<real>, n: nat)
    requires UnitDraws(rand) && 2 * n <= |rand|
  {
    forall k :: 0 <= k < n ==> !InAnnulus(center, CandidateAt(center, maxR, rand, k), minR, maxR)
  }

  /** Taking one more pair of draws leaves a suffix. */
  lemma DropPair(rest: seq<real>, rand: seq<real>)
    requires Suffix(rest, rand) && |rest| >= 2
    ensures Suffix(rest[2..], rand)
  {
    assert rand[|rand| - |rest|..][2..] == rand[|rand| - |rest| + 2..];
  }

  /** A rejected n-th candidate extends the run of rejections by one. */
  lemma RejectedOneMore(center: Point, minR: real, maxR: real, rand: seq<real>, n: nat)
    requires UnitDraws(rand) && 2 * n + 2 <= |rand|
    requires AllRejected(center, minR, maxR, rand, n)
    requires !InAnnulus(center, CandidateAt(center, maxR, rand, n), minR, maxR)
    ensures AllRejected(center, minR, maxR, rand, n + 1)
  {
  }

  /**
   * genDisplacedPoint: draws candidates pair by pair until one lies in the
   * annulus around center and returns it, with the draws left over. Returns
   * None when fewer than two draws remain.
   */
  method GenDisplacedPoint(center: Point, minR: real, maxR: real, rand: seq<real>)
    returns (c: Option<Point>, rest: seq<real>)
    requires UnitDraws(rand)
    ensures Suffix(rest, rand) && (|rand| - |rest|) % 2 == 0
    ensures c.Some? ==>
              var n := (|rand| - |rest|) / 2;
              n >= 1 && AllRejected(center, minR, maxR, rand, n - 1) &&
              c.value == CandidateAt(center, maxR, rand, n - 1) &&
              InAnnulus(center, c.value, minR, maxR)
    ensures c.None? ==> |rest| < 2 && AllRejected(center, minR, maxR, rand, (|rand| - |rest|) / 2)
  {
    rest := rand;
    var n := 0;
    while |rest| >= 2
      invariant |rand| - |rest| == 2 * n
      invariant Suffix(rest, rand)
      invariant AllRejected(center, minR, maxR, rand, n)
      decreases |rest|
    {
      var cand := CandidateAt(center, maxR, rand, n);
      DropPair(rest, rand);
      rest := rest[2..];
      n := n + 1;
      var dSqr := DistSqr(cand, center);
      if dSqr < minR * minR || dSqr > maxR * maxR {
        RejectedOneMore(center, minR, maxR, rand, n - 1);
        continue;
      }
      c := Some(cand);
      return;
    }
    c := None;
  }
}
