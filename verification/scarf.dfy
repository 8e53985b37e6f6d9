/**
 * The Voronoi scarf generator: Bridson Poisson-disk sampling of seed points
 * over a uniform grid, nearest-seed classification of pixels, and the
 * rasterisation of cell boundaries. The module globals of the source
 * (points, grid, indexCache and the image) are the fields of one Generator.
 */
module Scarf {
  import opened Geometry
  import opened Draws
  import opened Nearest

  /** An RGB colour of the image. */
  datatype Color = Rgb(r: int, g: int, b: int)

  /** Colour of borders and cell edges. */
  const EdgeColor: Color := Rgb(50, 50, 50)

  /** Colour of every other pixel. */
  const BaseColor: Color := Rgb(255, 255, 255)

  /** A rectangle of grid cells, bounds inclusive. */
  datatype Box = Box(x0: int, x1: int, y0: int, y1: int)

  /** No index occurs twice. */
  predicate Distinct(s: seq<int>)
  {
    forall i, j :: 0 <= i < j < |s| ==> s[i] != s[j]
  }

  /** Two duplicate-free lists with no common element concatenate to one. */
  lemma DistinctConcat(a: seq<int>, b: seq<int>)
    requires Distinct(a) && Distinct(b)
    requires forall k :: k in a ==> k !in b
    ensures Distinct(a + b)
  {
    forall i, j | 0 <= i < j < |a + b|
      ensures (a + b)[i] != (a + b)[j]
    {
      if i < |a| && |a| <= j {
        assert (a + b)[i] in a && (a + b)[j] in b;
      }
    }
  }

  /** How one round of the retry loop around an active point ended. */
  datatype Attempt = Placed(p: Point) | Exhausted | OutOfDraws

  class Generator {
    /** X, Y, DIST_BETWEEN_POINTS, GRID_SIZE, BORDER_WIDTH, CELL_EDGE_WIDTH, POPULATION_RETRIES. */
    const cfg: Config
    /** The seed points placed so far, in placement order. */
    var points: seq<Point>
    /** Cell (cx, cy) holds the index of the point in it, or -1. */
    var grid: array2<int>
    /** Memo of the classifier, keyed by pixel. */
    var indexCache: map<(int, int), int>
    /** The output image, indexed [x, y]. */
    const image: array2<Color>

    /**
     * The state before makeGrid: no points, an empty cache, a black image of
     * width x height pixels, and no grid yet (a 0 x 0 array).
     */
    constructor(cfg: Config)
      requires cfg.Valid()
      ensures this.cfg == cfg && points == [] && indexCache == map[]
      ensures grid.Length0 == 0 && grid.Length1 == 0
      ensures image.Length0 == cfg.width && image.Length1 == cfg.height
      ensures forall x, y :: 0 <= x < cfg.width && 0 <= y < cfg.height ==> image[x, y] == Rgb(0, 0, 0)
      ensures fresh(image)
    {
      this.cfg := cfg;
      points := [];
      grid := new int[0, 0];
      indexCache := map[];
      image := new Color[cfg.width, cfg.height]((x, y) => Rgb(0, 0, 0));
    }

    /** D*D as a real, the squared spacing between seed points. */
    function MinSqr(): real
    {
      cfg.dist as real * cfg.dist as real
    }

    /** The cell of p lies inside the grid. */
    predicate CellInGrid(p: Point)
      reads this`grid
      requires cfg.gridSize > 0
    {
      0 <= cfg.CellX(p) < grid.Length0 && 0 <= cfg.CellY(p) < grid.Length1
    }

    /**
     * The grid indexes the points: it has ceil(X/G) x ceil(Y/G) cells, every
     * point lies in the raster and is recorded in its own cell, and every
     * non-empty cell holds the index of a point lying in that cell.
     */
    ghost predicate Valid()
      reads this`points, this`grid, grid
    {
      cfg.Valid() &&
      grid.Length0 == cfg.GridWidth() && grid.Length1 == cfg.GridHeight() &&
      (forall i :: 0 <= i < |points| ==>
         cfg.InRaster(points[i]) && CellInGrid(points[i]) &&
         grid[cfg.CellX(points[i]), cfg.CellY(points[i])] == i) &&
      (forall cx, cy :: 0 <= cx < grid.Length0 && 0 <= cy < grid.Length1 && grid[cx, cy] != -1 ==>
         0 <= grid[cx, cy] < |points| &&
         cfg.CellX(points[grid[cx, cy]]) == cx && cfg.CellY(points[grid[cx, cy]]) == cy)
    }

    /** Every two seed points are at least D apart. */
    ghost predicate Spaced()
      reads this`points
    {
      forall i, j :: 0 <= i < j < |points| ==> DistSqr(points[i], points[j]) >= MinSqr()
    }

    /**
     * makeGrid: a fresh grid of ceil(X/G) x ceil(Y/G) cells, all empty; with
     * no points yet, the grid indexes them.
     */
    method MakeGrid()
      requires cfg.Valid()
      modifies this`grid
      ensures fresh(grid)
      ensures grid.Length0 == cfg.GridWidth() && grid.Length1 == cfg.GridHeight()
      ensures forall cx, cy :: 0 <= cx < grid.Length0 && 0 <= cy < grid.Length1 ==> grid[cx, cy] == -1
      ensures points == [] ==> Valid()
    {
      grid := new int[cfg.GridWidth(), cfg.GridHeight()]((cx, cy) => -1);
    }

    /**
     * findPointInGrid: the content of p's cell, which on an indexing grid is
     * -1 exactly when no point shares p's cell, and otherwise such a point.
     */
    function FindPointInGrid(p: Point): (gi: int)
      reads this`points, this`grid, grid
      requires cfg.gridSize > 0 && CellInGrid(p)
      ensures Valid() ==>
                (gi == -1 <==> forall i :: 0 <= i < |points| ==>
                                 cfg.CellX(points[i]) != cfg.CellX(p) || cfg.CellY(points[i]) != cfg.CellY(p))
      ensures Valid() && gi != -1 ==>
                0 <= gi < |points| && cfg.CellX(points[gi]) == cfg.CellX(p) && cfg.CellY(points[gi]) == cfg.CellY(p)
    {
      grid[cfg.CellX(p), cfg.CellY(p)]
    }

    /**
     * The cells a radius-r query around q scans: int((q - r) / G) up to
     * int((q + r) / G) + 1 on each axis, clamped to the grid.
     */
    function QueryBox(q: Point, r: real): (b: Box)
      reads this`grid
      requires cfg.gridSize > 0
      ensures 0 <= b.x0 && b.x1 < grid.Length0 && 0 <= b.y0 && b.y1 < grid.Length1
    {
      var g := cfg.gridSize as real;
      Box(Max(0, Trunc((q.x - r) / g)), Min(Trunc((q.x + r) / g) + 1, grid.Length0 - 1),
          Max(0, Trunc((q.y - r) / g)), Min(Trunc((q.y + r) / g) + 1, grid.Length1 - 1))
    }

    /** The indices one column ix of the query yields, for rows iy..y1, in order. */
    function ScanColumn(q: Point, r: real, ix: int, iy: int, y1: int): (s: seq<int>)
      reads this`points, this`grid, grid
      requires Valid() && 0 <= ix < grid.Length0 && 0 <= iy && y1 < grid.Length1
      ensures ValidIndices(points, s)
      decreases y1 - iy + 1
    {
      if iy > y1 then []
      else
        var gi := grid[ix, iy];
        (if gi != -1 && DistSqr(points[gi], q) < r * r then [gi] else []) +
        ScanColumn(q, r, ix, iy + 1, y1)
    }

    /** The indices columns ix..x1 of the query yield, for rows y0..y1, in order. */
    function ScanRows(q: Point, r: real, ix: int, x1: int, y0: int, y1: int): (s: seq<int>)
      reads this`points, this`grid, grid
      requires Valid() && 0 <= ix && x1 < grid.Length0 && 0 <= y0 && y1 < grid.Length1
      ensures ValidIndices(points, s)
      decreases x1 - ix + 1
    {
      if ix > x1 then []
      else ScanColumn(q, r, ix, y0, y1) + ScanRows(q, r, ix + 1, x1, y0, y1)
    }

    /**
     * findNeighborIndicesInGrid: for each scanned cell in order, the index it
     * holds when that point lies strictly within r of q.
     */
    function NeighborIndicesInGrid(q: Point, r: real): (s: seq<int>)
      reads this`points, this`grid, grid
      requires Valid()
      ensures ValidIndices(points, s)
    {
      var b := QueryBox(q, r);
      ScanRows(q, r, b.x0, b.x1, b.y0, b.y1)
    }

    /**
     * A column yields exactly the points in that column, in rows iy..y1,
     * strictly within r of q, each once.
     */
    lemma {:induction false} ScanColumnMembers(q: Point, r: real, ix: int, iy: int, y1: int)
      requires Valid() && 0 <= ix < grid.Length0 && 0 <= iy && y1 < grid.Length1
      ensures forall k :: k in ScanColumn(q, r, ix, iy, y1) <==>
                0 <= k < |points| && cfg.CellX(points[k]) == ix && iy <= cfg.CellY(points[k]) <= y1 &&
                DistSqr(points[k], q) < r * r
      ensures Distinct(ScanColumn(q, r, ix, iy, y1))
      decreases y1 - iy + 1
    {
      if iy <= y1 {
        ScanColumnMembers(q, r, ix, iy + 1, y1);
        var gi := grid[ix, iy];
        var head := if gi != -1 && DistSqr(points[gi], q) < r * r then [gi] else [];
        var tail := ScanColumn(q, r, ix, iy + 1, y1);
        assert ScanColumn(q, r, ix, iy, y1) == head + tail;
        forall k | 0 <= k < |points| && cfg.CellX(points[k]) == ix && cfg.CellY(points[k]) == iy
          ensures gi == k
        {
        }
        DistinctConcat(head, tail);
      }
    }

    /**
     * Columns ix..x1 yield exactly the points whose cell lies in
     * [ix, x1] x [y0, y1] strictly within r of q, each once.
     */
    lemma {:induction false} ScanRowsMembers(q: Point, r: real, ix: int, x1: int, y0: int, y1: int)
      requires Valid() && 0 <= ix && x1 < grid.Length0 && 0 <= y0 && y1 < grid.Length1
      ensures forall k :: k in ScanRows(q, r, ix, x1, y0, y1) <==>
                0 <= k < |points| && ix <= cfg.CellX(points[k]) <= x1 && y0 <= cfg.CellY(points[k]) <= y1 &&
                DistSqr(points[k], q) < r * r
      ensures Distinct(ScanRows(q, r, ix, x1, y0, y1))
      decreases x1 - ix + 1
    {
      if ix <= x1 {
        ScanColumnMembers(q, r, ix, y0, y1);
        ScanRowsMembers(q, r, ix + 1, x1, y0, y1);
        DistinctConcat(ScanColumn(q, r, ix, y0, y1), ScanRows(q, r, ix + 1, x1, y0, y1));
      }
    }

    /** A point of the grid within r of q has its cell in the query's box. */
    lemma CellInQueryBox(q: Point, r: real, k: int)
      requires Valid() && r >= 0.0 && 0 <= k < |points| && DistSqr(points[k], q) < r * r
      ensures var b := QueryBox(q, r);
              b.x0 <= cfg.CellX(points[k]) <= b.x1 && b.y0 <= cfg.CellY(points[k]) <= b.y1
    {
      var p := points[k];
      assert cfg.InRaster(p) && CellInGrid(p);
      WithinSquare(p, q, r);
      NearPointCellInRange(q, p, r, cfg.gridSize, grid.Length0, grid.Length1);
    }

    /**
     * On an indexing grid, the radius query yields exactly the indices of the
     * points strictly within r of q, each once: the scanned cells cover every
     * such point.
     */
    lemma QueryExact(q: Point, r: real)
      requires Valid() && r >= 0.0
      ensures forall k :: k in NeighborIndicesInGrid(q, r) <==> 0 <= k < |points| && DistSqr(points[k], q) < r * r
      ensures Distinct(NeighborIndicesInGrid(q, r))
    {
      var b := QueryBox(q, r);
      ScanRowsMembers(q, r, b.x0, b.x1, b.y0, b.y1);
      forall k | 0 <= k < |points| && DistSqr(points[k], q) < r * r
        ensures b.x0 <= cfg.CellX(points[k]) <= b.x1 && b.y0 <= cfg.CellY(points[k]) <= b.y1
      {
        CellInQueryBox(q, r, k);
      }
    }

    /** The radius query is empty exactly when no point lies strictly within r of q. */
    lemma QueryEmpty(q: Point, r: real)
      requires Valid() && r >= 0.0
      ensures |NeighborIndicesInGrid(q, r)| == 0 <==>
                forall k :: 0 <= k < |points| ==> DistSqr(points[k], q) >= r * r
    {
      QueryExact(q, r);
      var ni := NeighborIndicesInGrid(q, r);
      if |ni| > 0 {
        assert ni[0] in ni;
      }
    }

    /** findNeighborsInGrid: the points the radius query yields, in the same order. */
    function NeighborsInGrid(q: Point, r: real): (pts: seq<Point>)
      reads this`points, this`grid, grid
      requires Valid()
      ensures |pts| == |NeighborIndicesInGrid(q, r)|
      ensures forall j :: 0 <= j < |pts| ==> pts[j] == points[NeighborIndicesInGrid(q, r)[j]]
      ensures r >= 0.0 ==> forall p :: p in pts ==> p in points && DistSqr(p, q) < r * r
      ensures r >= 0.0 ==> forall k :: 0 <= k < |points| && DistSqr(points[k], q) < r * r ==> points[k] in pts
    {
      var ni := NeighborIndicesInGrid(q, r);
      var pts := PointsAt(points, ni);
      if r >= 0.0 then
        QueryExact(q, r);
        assert forall k :: 0 <= k < |points| && DistSqr(points[k], q) < r * r ==> points[k] in pts by {
          forall k | 0 <= k < |points| && DistSqr(points[k], q) < r * r
            ensures points[k] in pts
          {
            var j :| 0 <= j < |ni| && ni[j] == k;
            assert pts[j] == points[k];
          }
        }
        pts
      else pts
    }

    /**
     * isLegalPoint: p lies in the closed raster [0, X] x [0, Y] and no stored
     * point is strictly closer than D.
     */
    function IsLegalPoint(p: Point): (legal: bool)
      reads this`points, this`grid, grid
      requires Valid()
      ensures legal <==> cfg.InRaster(p) && forall k :: 0 <= k < |points| ==> DistSqr(points[k], p) >= MinSqr()
    {
      if p.x < 0.0 || p.x > cfg.width as real || p.y < 0.0 || p.y > cfg.height as real then false
      else
        var nps := NeighborsInGrid(p, cfg.dist as real);
        NoNeighborsIsLegal(p);
        |nps| == 0
    }

    /** The query of radius D around p comes back empty exactly when no point is closer than D to p. */
    lemma NoNeighborsIsLegal(p: Point)
      requires Valid()
      ensures |NeighborsInGrid(p, cfg.dist as real)| == 0 <==>
                forall k :: 0 <= k < |points| ==> DistSqr(points[k], p) >= cfg.dist as real * cfg.dist as real
    {
      QueryEmpty(p, cfg.dist as real);
    }

    /** An occupied cell holds a point closer than D to anything in that cell. */
    lemma OccupiedCellNear(p: Point)
      requires Valid() && 0.0 <= p.x && 0.0 <= p.y && CellInGrid(p)
      ensures grid[cfg.CellX(p), cfg.CellY(p)] != -1 ==>
                DistSqr(points[grid[cfg.CellX(p), cfg.CellY(p)]], p) < MinSqr()
    {
      var gi := grid[cfg.CellX(p), cfg.CellY(p)];
      if gi != -1 {
        SameCellNear(cfg, points[gi], p);
      }
    }

    /**
     * When X and Y are not multiples of G, a legal point's cell lies in the
     * grid and is empty, so adding it never overwrites a cell.
     */
    lemma LegalCellEmpty(p: Point)
      requires Valid() && cfg.EdgesInsideGrid() && IsLegalPoint(p)
      ensures CellInGrid(p) && grid[cfg.CellX(p), cfg.CellY(p)] == -1
    {
      CoordCellInGrid(cfg.width, grid.Length0, cfg.gridSize, p.x);
      CoordCellInGrid(cfg.height, grid.Length1, cfg.gridSize, p.y);
      OccupiedCellNear(p);
    }

    /**
     * addPointToGrid: writes i into p's cell and appends p; no other cell
     * changes. Adding a point of the raster under the next index into an
     * empty cell keeps the grid indexing the points.
     */
    method AddPointToGrid(p: Point, i: int)
      requires cfg.gridSize > 0 && CellInGrid(p)
      modifies this`points, grid
      ensures points == old(points) + [p]
      ensures grid[cfg.CellX(p), cfg.CellY(p)] == i
      ensures forall cx, cy ::
                (0 <= cx < grid.Length0 && 0 <= cy < grid.Length1 &&
                 (cx != cfg.CellX(p) || cy != cfg.CellY(p))) ==> grid[cx, cy] == old(grid[cx, cy])
      ensures (old(Valid()) && i == |old(points)| && cfg.InRaster(p) &&
               old(grid[cfg.CellX(p), cfg.CellY(p)]) == -1) ==> Valid()
    {
      grid[cfg.CellX(p), cfg.CellY(p)] := i;
      points := points + [p];
    }
  
    /**
     * t is a candidate from the annulus [D, 2D] around center that
     * isLegalPoint turns down when the points placed so far are ps: it is
     * outside the raster or closer than D to one of them.
     */
    ghost predicate Rejected(ps: seq<Point>, center: Point, t: Point)
    {
      InAnnulus(center, t, cfg.dist as real, 2.0 * cfg.dist as real) &&
      !(cfg.InRaster(t) && forall k :: 0 <= k < |ps| ==> DistSqr(ps[k], t) >= MinSqr())
    }

    /**
     * One pass of the inner for loop of fillGrid: a candidate from the annulus
     * [D, 2D] around center, and whether isLegalPoint accepts it.
     */
    method TryOnce(center: Point, rand: seq<real>) returns (c: Option<Point>, legal: bool, rest: seq<real>)
      requires Valid() && UnitDraws(rand)
      ensures Suffix(rest, rand)
      ensures c.Some? ==> InAnnulus(center, c.value, cfg.dist as real, 2.0 * cfg.dist as real)
      ensures c.Some? ==> (legal <==> IsLegalPoint(c.value))
      ensures c.None? ==> |rest| < 2
    {
      c, rest := GenDisplacedPoint(center, cfg.dist as real, 2.0 * cfg.dist as real, rand);
      legal := c.Some? && IsLegalPoint(c.value);
    }

    /**
     * The inner for loop of fillGrid around one active point: up to
     * POPULATION_RETRIES candidates from the annulus [D, 2D] around center,
     * stopping at the first legal one. tried lists the illegal candidates.
     */
    method TryAround(center: Point, rand: seq<real>) returns (a: Attempt, rest: seq<real>, ghost tried: seq<Point>)
      requires Valid() && UnitDraws(rand)
      ensures Suffix(rest, rand)
      ensures forall t :: t in tried ==> Rejected(points, center, t)
      ensures a.Placed? ==>
                IsLegalPoint(a.p) && InAnnulus(center, a.p, cfg.dist as real, 2.0 * cfg.dist as real) &&
                |tried| < cfg.retries
      ensures a.Exhausted? ==> |tried| == Max(0, cfg.retries)
      ensures a.OutOfDraws? ==> |rest| < 2 && |tried| < cfg.retries
    {
      rest := rand;
      tried := [];
      var k := 0;
      while k < cfg.retries
        invariant 0 <= k <= Max(0, cfg.retries) && |tried| == k
        invariant Suffix(rest, rand)
        invariant forall t :: t in tried ==> Rejected(points, center, t)
      {
        SuffixUnit(rest, rand);
        var c, legal, rest' := TryOnce(center, rest);
        SuffixTrans(rest', rest, rand);
        rest := rest';
        if c.None? {
          return OutOfDraws, rest, tried;
        }
        if legal {
          return Placed(c.value), rest, tried;
        }
        tried := tried + [c.value];
        k := k + 1;
      }
      a := Exhausted;
    }

    /**
     * One round of fillGrid's while loop: pick an active point with
     * randrange, try to place a new point around it; on success append the
     * new point to both points and the active list, otherwise pop the picked
     * entry. Out of draws, nothing changes.
     */
    method Grow(active: seq<Point>, rand: seq<real>) returns (a: Attempt, i: int, next: seq<Point>, rest: seq<real>)
      requires Valid() && Spaced() && cfg.EdgesInsideGrid() && UnitDraws(rand) && |active| > 0
      requires forall e :: e in active ==> e in points
      modifies this`points, grid
      ensures Valid() && Spaced()
      ensures forall e :: e in next ==> e in points
      ensures Suffix(rest, rand) && (!a.OutOfDraws? ==> |rest| < |rand|)
      ensures a.Placed? ==>
                0 <= i < |active| && points == old(points) + [a.p] && next == active + [a.p] &&
                InAnnulus(active[i], a.p, cfg.dist as real, 2.0 * cfg.dist as real)
      ensures a.Exhausted? ==>
                0 <= i < |active| && points == old(points) && next == active[..i] + active[i + 1..]
      ensures a.OutOfDraws? ==> points == old(points) && next == active && |rest| < 2
    {
      if |rand| == 0 {
        return OutOfDraws, 0, active, rand;
      }
      i := RandRange(|active|, rand[0]);
      rest := rand[1..];
      var center := active[i];
      ghost var tried;
      var rest';
      a, rest', tried := TryAround(center, rest);
      SuffixTrans(rest', rest, rand);
      rest := rest';
      match a {
        case Placed(p) =>
          LegalCellEmpty(p);
          AddPointToGrid(p, |points|);
          next := active + [p];
        case Exhausted =>
          next := active[..i] + active[i + 1..];
        case OutOfDraws =>
          next := active;
      }
    }

    /**
     * fillGrid: place a seed point uniformly in [D/2, X - D/2] x [D/2, Y - D/2],
     * then grow the active list round by round until it is empty (complete)
     * or the draws run out. Every placed point lies in the raster, every two
     * are at least D apart, and the grid indexes them all.
     */
    method FillGrid(rand: seq<real>) returns (complete: bool, rest: seq<real>)
      requires Valid() && points == [] && cfg.EdgesInsideGrid() && UnitDraws(rand)
      requires cfg.dist <= 2 * cfg.width && cfg.dist <= 2 * cfg.height
      modifies this`points, grid
      ensures Valid() && Spaced()
      ensures Suffix(rest, rand)
      ensures |rand| >= 2 ==> |points| >= 1
      ensures !complete ==> |rest| < 2
    {
      if |rand| < 2 {
        return false, rand;
      }
      var hd := cfg.dist as real / 2.0;
      var x := Uniform(hd, cfg.width as real - hd, rand[0]);
      var y := Uniform(hd, cfg.height as real - hd, rand[1]);
      rest := rand[2..];
      var p := Point(x, y);
      assert IsLegalPoint(p);
      LegalCellEmpty(p);
      AddPointToGrid(p, 0);
      var active := [p];
      while |active| > 0
        invariant Valid() && Spaced() && |points| >= 1
        invariant forall e :: e in active ==> e in points
        invariant Suffix(rest, rand)
        decreases |rest|
      {
        SuffixUnit(rest, rand);
        var a, i, next, rest' := Grow(active, rest);
        SuffixTrans(rest', rest, rand);
        rest := rest';
        active := next;
        if a.OutOfDraws? {
          return false, rest;
        }
      }
      complete := true;
    }
  
    /**
     * When D exceeds the raster diagonal, raster points at least D apart
     * number at most one.
     */
    lemma SpacedInRasterAtMostOne(ps: seq<Point>)
      requires forall i :: 0 <= i < |ps| ==> cfg.InRaster(ps[i])
      requires forall i, j :: 0 <= i < j < |ps| ==> DistSqr(ps[i], ps[j]) >= MinSqr()
      requires cfg.dist * cfg.dist > cfg.width * cfg.width + cfg.height * cfg.height
      ensures |ps| <= 1
    {
      if |ps| >= 2 {
        assert cfg.InRaster(ps[0]) && cfg.InRaster(ps[1]);
        assert DistSqr(ps[0], ps[1]) >= MinSqr();
        WithinDiagonal(ps[0], ps[1], cfg.width, cfg.height, cfg.dist);
        assert false;
      }
    }

    /**
     * So in that case the generator holds at most one point; with at least two
     * draws fillGrid places exactly one.
     */
    lemma AtMostOnePoint()
      requires Valid() && Spaced()
      requires cfg.dist * cfg.dist > cfg.width * cfg.width + cfg.height * cfg.height
      ensures |points| <= 1
    {
      SpacedInRasterAtMostOne(points);
    }

    /** The pixel (x, y) as a query point. */
    function PixelPoint(x: int, y: int): Point
    {
      Point(x as real, y as real)
    }

    /** A radius from which on every query around (x, y) meets the first point. */
    function Reach(x: int, y: int): int
    {
      Abs(x) + Abs(y) + cfg.width + cfg.height + 1
    }

    /** A query of radius at least Reach(x, y) yields something once points exist. */
    lemma QueryReaches(x: int, y: int, r: int)
      requires Valid() && |points| > 0
      ensures r >= Reach(x, y) ==> |NeighborIndicesInGrid(PixelPoint(x, y), r as real)| > 0
    {
      if r >= Reach(x, y) {
        var p := points[0];
        var q := PixelPoint(x, y);
        var rr := r as real;
        assert cfg.InRaster(p);
        RasterWithinReach(p, x, y, cfg.width, cfg.height, r);
        assert DistSqr(points[0], q) < rr * rr;
        QueryEmpty(q, rr);
      }
    }

    /**
     * The radius at which findClosestPointIndex's loop stops, starting from r:
     * the first of 2r, 4r, 8r, ... whose query is non-empty.
     */
    function FirstRadius(x: int, y: int, r: int): (fr: int)
      reads this`points, this`grid, grid
      requires Valid() && |points| > 0 && r > 0
      ensures fr >= 2 * r && |NeighborIndicesInGrid(PixelPoint(x, y), fr as real)| > 0
      decreases Reach(x, y) - r
    {
      if |NeighborIndicesInGrid(PixelPoint(x, y), (2 * r) as real)| > 0 then 2 * r
      else
        QueryReaches(x, y, 2 * r);
        FirstRadius(x, y, 2 * r)
    }

    /** One doubling: the stopping radius from r is 2r, or else the stopping radius from 2r. */
    lemma FirstRadiusStep(x: int, y: int, r: int)
      requires Valid() && |points| > 0 && r > 0
      ensures FirstRadius(x, y, r) ==
                if |NeighborIndicesInGrid(PixelPoint(x, y), (2 * r) as real)| > 0 then 2 * r
                else FirstRadius(x, y, 2 * r)
    {
    }

    /** r doubled k times, r * 2^k. */
    function Doubled(r: int, k: nat): (d: int)
      ensures r > 0 ==> d >= r
      decreases k
    {
      if k == 0 then r else Doubled(2 * r, k - 1)
    }

    /**
     * The stopping radius is r doubled k >= 1 times, and every smaller
     * doubling (1 <= j < k times) gave an empty query.
     */
    lemma {:induction false} FirstRadiusDoubles(x: int, y: int, r: int) returns (k: nat)
      requires Valid() && |points| > 0 && r > 0
      ensures k >= 1 && FirstRadius(x, y, r) == Doubled(r, k)
      ensures forall j :: 1 <= j < k ==> |NeighborIndicesInGrid(PixelPoint(x, y), Doubled(r, j) as real)| == 0
      decreases Reach(x, y) - r
    {
      var q := PixelPoint(x, y);
      FirstRadiusStep(x, y, r);
      if |NeighborIndicesInGrid(q, (2 * r) as real)| > 0 {
        k := 1;
        assert Doubled(r, 1) == Doubled(2 * r, 0);
      } else {
        QueryReaches(x, y, 2 * r);
        var k' := FirstRadiusDoubles(x, y, 2 * r);
        k := k' + 1;
        assert Doubled(r, k) == Doubled(2 * r, k');
        forall j | 1 <= j < k
          ensures |NeighborIndicesInGrid(q, Doubled(r, j) as real)| == 0
        {
          assert Doubled(r, j) == Doubled(2 * r, j - 1);
        }
      }
    }

    /** The candidates findClosestPointIndex compares for pixel (x, y), in query order. */
    function Candidates(x: int, y: int): (ni: seq<int>)
      reads this`points, this`grid, grid
      requires Valid() && |points| > 0
      ensures ValidIndices(points, ni) && |ni| > 0
    {
      NeighborIndicesInGrid(PixelPoint(x, y), FirstRadius(x, y, cfg.dist) as real)
    }

    /**
     * What findClosestPointIndex computes for pixel (x, y) on a cache miss:
     * the argmin scan over the first non-empty query, from 1e30 and -1.
     */
    function Classify(x: int, y: int): (i: int)
      reads this`points, this`grid, grid
      requires Valid() && |points| > 0
      ensures i == -1 || 0 <= i < |points|
    {
      var ni := Candidates(x, y);
      ScanClosest(DistsTo(points, PixelPoint(x, y), ni), ni, Unreached, -1)
    }

    /**
     * The classification is the candidate at the first minimum of the squared
     * distances, ties going to the candidate the query yielded first, as long
     * as some candidate lies below 1e30.
     */
    lemma ClassifyIsFirstMinimum(x: int, y: int) returns (k: int)
      requires Valid() && |points| > 0
      requires exists j :: 0 <= j < |Candidates(x, y)| &&
                 DistSqr(points[Candidates(x, y)[j]], PixelPoint(x, y)) < Unreached
      ensures FirstMinimum(DistsTo(points, PixelPoint(x, y), Candidates(x, y)), k, Unreached)
      ensures Classify(x, y) == Candidates(x, y)[k] && 0 <= Classify(x, y) < |points|
    {
      var ni := Candidates(x, y);
      var ds := DistsTo(points, PixelPoint(x, y), ni);
      var j :| 0 <= j < |ni| && DistSqr(points[ni[j]], PixelPoint(x, y)) < Unreached;
      assert ds[j] < Unreached;
      k := ScanFindsFirstMinimum(ds, ni, Unreached, -1);
    }

    /** When every candidate is at least 1e30 away, the classification stays -1. */
    lemma ClassifyUnreached(x: int, y: int)
      requires Valid() && |points| > 0
      requires forall j :: 0 <= j < |Candidates(x, y)| ==>
                 DistSqr(points[Candidates(x, y)[j]], PixelPoint(x, y)) >= Unreached
      ensures Classify(x, y) == -1
    {
      var ni := Candidates(x, y);
      ScanKeepsStart(DistsTo(points, PixelPoint(x, y), ni), ni, Unreached, -1);
    }

    /**
     * A trigger guard. A fact written `forall k {:trigger Hook(k)} :: Hook(k) == 0 ==> P`
     * means just P, but the solver keeps it folded until a proof mentions a
     * Hook term; `assert Hook(0) == 0` unfolds it. ClassifiedAs, CacheAgrees
     * and EdgeAt use it so that the methods that change the cache carry those
     * facts without unfolding the classifier.
     */
    function Hook(k: int): int
    {
      k
    }

    /**
     * i is the classification of pixel (x, y). The statement sits under a
     * quantifier that only a Hook term triggers, so methods that shuffle the
     * cache carry the fact without unfolding the classifier;
     * ClassifiedAsIs turns it into i == Classify(x, y) and back.
     */
    ghost predicate ClassifiedAs(x: int, y: int, i: int)
      reads this`points, this`grid, grid
      requires Valid() && |points| > 0
    {
      forall k {:trigger Hook(k)} :: Hook(k) == 0 ==> i == Classify(x, y)
    }

    /** ClassifiedAs is the classification. */
    lemma ClassifiedAsIs(x: int, y: int, i: int)
      requires Valid() && |points| > 0
      ensures ClassifiedAs(x, y, i) <==> i == Classify(x, y)
    {
      assert Hook(0) == 0;
    }

    /** The cache entry for key is the classification of its pixel. */
    ghost predicate Agrees(cache: map<(int, int), int>, key: (int, int))
      reads this`points, this`grid, grid
      requires Valid() && |points| > 0
    {
      key in cache && ClassifiedAs(key.0, key.1, cache[key])
    }

    /**
     * Every entry of cache is the classification of its pixel. The quantifier
     * is triggered only by Agrees, so a proof looks an entry up explicitly.
     */
    ghost predicate CacheAgrees(cache: map<(int, int), int>)
      reads this`points, this`grid, grid
      requires Valid() && |points| > 0
    {
      forall k {:trigger Hook(k)} :: Hook(k) == 0 ==>
        forall key {:trigger Agrees(cache, key)} :: key in cache ==> Agrees(cache, key)
    }

    /** The empty cache of a fresh generator agrees with the classifier. */
    lemma EmptyCacheAgrees()
      requires Valid() && |points| > 0
      ensures CacheAgrees(map[])
    {
      assert Hook(0) == 0;
    }

    /** A cache entry that agrees is the classification of its pixel. */
    lemma CachedIsClassify(cache: map<(int, int), int>, x: int, y: int)
      requires Valid() && |points| > 0 && CacheAgrees(cache) && (x, y) in cache
      ensures cache[(x, y)] == Classify(x, y)
    {
      assert Hook(0) == 0;
      assert Agrees(cache, (x, y));
      ClassifiedAsIs(x, y, cache[(x, y)]);
    }

    /** Recording a pixel's classification keeps a cache in agreement. */
    lemma CacheInsert(cache: map<(int, int), int>, x: int, y: int, i: int)
      requires Valid() && |points| > 0 && CacheAgrees(cache) && ClassifiedAs(x, y, i)
      ensures CacheAgrees(cache[(x, y) := i])
    {
      var bigger := cache[(x, y) := i];
      assert Hook(0) == 0;
      forall key | key in bigger
        ensures Agrees(bigger, key)
      {
        if key != (x, y) {
          assert Agrees(cache, key);
        }
      }
    }

    /**
     * The radius loop of findClosestPointIndex: double r from D until the
     * query around (x, y) yields something, and return what it yielded.
     */
    method GrowRadius(x: int, y: int) returns (neighborIndices: seq<int>)
      requires Valid() && |points| > 0
      ensures neighborIndices == Candidates(x, y)
    {
      var q := PixelPoint(x, y);
      neighborIndices := [];
      var r := cfg.dist;
      while |neighborIndices| == 0
        invariant r > 0
        invariant |neighborIndices| == 0 ==> FirstRadius(x, y, r) == FirstRadius(x, y, cfg.dist)
        invariant |neighborIndices| > 0 ==>
                    r == FirstRadius(x, y, cfg.dist) && neighborIndices == NeighborIndicesInGrid(q, r as real)
        decreases (if |neighborIndices| == 0 then 1 else 0), Max(0, Reach(x, y) - r)
      {
        ghost var r0 := r;
        r := 2 * r;
        neighborIndices := NeighborIndicesInGrid(q, r as real);
        QueryReaches(x, y, r);
        FirstRadiusStep(x, y, r0);
      }
    }

    /**
     * The cache-miss path of findClosestPointIndex: the radius doubles from D
     * until the query is non-empty, and the argmin over that query is the
     * pixel's classification.
     */
    method ClassifyPixel(x: int, y: int) returns (bestIndex: int)
      requires Valid() && |points| > 0
      ensures ClassifiedAs(x, y, bestIndex)
    {
      var neighborIndices := GrowRadius(x, y);
      bestIndex := ClosestAmong(points, PixelPoint(x, y), neighborIndices, Unreached);
      ClassifiedAsIs(x, y, bestIndex);
    }

    /**
     * The cache write of findClosestPointIndex: records index i for pixel
     * (x, y). A recorded classification keeps a cache in agreement.
     */
    method CacheStore(x: int, y: int, i: int)
      requires Valid() && |points| > 0 && ClassifiedAs(x, y, i) && (x, y) !in indexCache
      modifies this`indexCache
      ensures indexCache == old(indexCache)[(x, y) := i]
      ensures (x, y) in indexCache && indexCache[(x, y)] == i && Extends(indexCache, old(indexCache))
      ensures ClassifiedAs(x, y, i)
      ensures old(CacheAgrees(indexCache)) ==> CacheAgrees(indexCache)
    {
      ghost var agree := CacheAgrees(indexCache);
      if agree {
        CacheInsert(indexCache, x, y, i);
      }
      indexCache := indexCache[(x, y) := i];
    }

    /**
     * findClosestPointIndex: a cached pixel returns its cached index;
     * otherwise the pixel is classified, and the result cached and returned.
     */
    method FindClosestPointIndex(x: int, y: int) returns (ci: int)
      requires Valid() && |points| > 0
      modifies this`indexCache
      ensures (x, y) in old(indexCache) ==> ci == old(indexCache)[(x, y)] && indexCache == old(indexCache)
      ensures (x, y) !in old(indexCache) ==> ClassifiedAs(x, y, ci)
      ensures (x, y) !in old(indexCache) ==> indexCache == old(indexCache)[(x, y) := ci]
      ensures old(CacheAgrees(indexCache)) ==> CacheAgrees(indexCache) && ClassifiedAs(x, y, ci)
      ensures (x, y) in indexCache && indexCache[(x, y)] == ci && Extends(indexCache, old(indexCache))
    {
      var key := (x, y);
      if key in indexCache {
        if CacheAgrees(indexCache) {
          assert Hook(0) == 0 && Agrees(indexCache, key);
        }
        return indexCache[key];
      }
      var bestIndex := ClassifyPixel(x, y);
      CacheStore(x, y, bestIndex);
      ci := bestIndex;
    }

    /** newCache keeps every entry of oldCache unchanged. */
    predicate Extends(newCache: map<(int, int), int>, oldCache: map<(int, int), int>)
    {
      forall key :: key in oldCache ==> key in newCache && newCache[key] == oldCache[key]
    }

    /**
     * What findClosestPointIndexOld computes for pixel (x, y) on a cache miss:
     * the argmin scan over all points in order, from (X + Y)^2 and -1.
     */
    function OldClassify(x: int, y: int): (i: int)
      reads this`points
      ensures i == -1 || 0 <= i < |points|
    {
      var all := AllIndices(|points|);
      var bound := ((cfg.width + cfg.height) * (cfg.width + cfg.height)) as real;
      ScanClosest(DistsTo(points, PixelPoint(x, y), all), all, bound, -1)
    }

    /**
     * For a query inside the raster, the brute-force classifier returns the
     * lowest index among the points nearest to (x, y).
     */
    lemma OldIsLowestNearest(x: int, y: int)
      requires Valid() && |points| > 0
      requires 0 <= x <= cfg.width && 0 <= y <= cfg.height
      ensures 0 <= OldClassify(x, y) < |points|
      ensures forall k :: 0 <= k < |points| ==>
                DistSqr(points[OldClassify(x, y)], PixelPoint(x, y)) <= DistSqr(points[k], PixelPoint(x, y))
      ensures forall k :: 0 <= k < OldClassify(x, y) ==>
                DistSqr(points[OldClassify(x, y)], PixelPoint(x, y)) < DistSqr(points[k], PixelPoint(x, y))
    {
      var q := PixelPoint(x, y);
      var all := AllIndices(|points|);
      var bound := ((cfg.width + cfg.height) * (cfg.width + cfg.height)) as real;
      var ds := DistsTo(points, q, all);
      assert cfg.InRaster(points[0]);
      RasterWithinBox(points[0], q, cfg.width, cfg.height);
      assert ds[0] < bound;
      var k := ScanFindsFirstMinimum(ds, all, bound, -1);
      assert OldClassify(x, y) == k;
      forall j | 0 <= j < |points|
        ensures DistSqr(points[k], q) <= DistSqr(points[j], q)
        ensures j < k ==> DistSqr(points[k], q) < DistSqr(points[j], q)
      {
        assert ds[j] == DistSqr(points[j], q) && ds[k] == DistSqr(points[k], q);
        assert j < k ==> ds[k] < ds[j];
        assert k < j ==> ds[k] <= ds[j];
      }
    }

    /**
     * findClosestPointIndexOld: a cached pixel returns its cached index;
     * otherwise the brute-force argmin over all points is cached and returned.
     */
    method FindClosestPointIndexOld(x: int, y: int) returns (ci: int)
      modifies this`indexCache
      ensures (x, y) in old(indexCache) ==> ci == old(indexCache)[(x, y)] && indexCache == old(indexCache)
      ensures (x, y) !in old(indexCache) ==> ci == OldClassify(x, y)
      ensures (x, y) !in old(indexCache) ==> indexCache == old(indexCache)[(x, y) := ci]
    {
      var key := (x, y);
      if key in indexCache {
        return indexCache[key];
      }
      var bestDist := ((cfg.width + cfg.height) * (cfg.width + cfg.height)) as real;
      var bestIndex := ClosestAmong(points, PixelPoint(x, y), AllIndices(|points|), bestDist);
      assert bestIndex == OldClassify(x, y);
      indexCache := indexCache[key := bestIndex];
      ci := bestIndex;
    }

    /**
     * The pixel (x, y) is on a cell edge: some pixel of the image within
     * Euclidean distance CELL_EDGE_WIDTH classifies to a different seed.
     */
    ghost predicate OnEdgeSpec(x: int, y: int)
      reads this`points, this`grid, grid
      requires Valid() && |points| > 0
    {
      exists tx, ty :: cfg.InEdgeDisk(x, y, tx, ty) && Classify(tx, ty) != Classify(x, y)
    }

    /**
     * OnEdgeSpec under the Hook guard (see ClassifiedAs), the form in which
     * the drawing methods carry it; EdgeAtIs unfolds it.
     */
    ghost predicate EdgeAt(x: int, y: int)
      reads this`points, this`grid, grid
      requires Valid() && |points| > 0
    {
      forall k {:trigger Hook(k)} :: Hook(k) == 0 ==> OnEdgeSpec(x, y)
    }

    /** EdgeAt is OnEdgeSpec. */
    lemma EdgeAtIs(x: int, y: int)
      requires Valid() && |points| > 0
      ensures EdgeAt(x, y) <==> OnEdgeSpec(x, y)
    {
      assert Hook(0) == 0;
    }

    /**
     * Every pixel of the edge disk of (x, y) scanned before (tx, ty), column by
     * column, is cached with the index ci.
     */
    ghost predicate CachedSame(cache: map<(int, int), int>, x: int, y: int, tx: int, ty: int, ci: int)
    {
      forall tx', ty' {:trigger cfg.InEdgeDisk(x, y, tx', ty')} ::
        (tx' < tx || (tx' == tx && ty' < ty)) && cfg.InEdgeDisk(x, y, tx', ty') ==>
          (tx', ty') in cache && cache[(tx', ty')] == ci
    }

    /** Scanning pixel (tx, ty) of the column extends the agreeing prefix by one. */
    lemma CachedSameStep(cache: map<(int, int), int>, x: int, y: int, tx: int, ty: int, ci: int)
      requires CachedSame(cache, x, y, tx, ty, ci)
      requires cfg.InEdgeDisk(x, y, tx, ty) ==> (tx, ty) in cache && cache[(tx, ty)] == ci
      ensures CachedSame(cache, x, y, tx, ty + 1, ci)
    {
    }

    /**
     * A pixel of the scanned square that is too far from (x, y), or outside
     * the image, is skipped, and the agreeing prefix still extends by one.
     */
    lemma CachedSameSkip(cache: map<(int, int), int>, x: int, y: int, tx: int, ty: int, ci: int,
                         dx: int, dy: int, ewSqr: int)
      requires CachedSame(cache, x, y, tx, ty, ci)
      requires dx == tx - x && dy == ty - y && ewSqr == cfg.edgeWidth * cfg.edgeWidth
      requires x - cfg.edgeWidth <= tx <= x + cfg.edgeWidth && y - cfg.edgeWidth <= ty <= y + cfg.edgeWidth
      requires !(SqrLen(dx, dy) <= ewSqr && 0 <= tx < cfg.width && 0 <= ty < cfg.height)
      ensures CachedSame(cache, x, y, tx, ty + 1, ci)
    {
      EdgeDiskTest(cfg, x, y, tx, ty, ewSqr);
    }

    /** Past the last row of the disk, the scan moves on to the next column. */
    lemma CachedSameColumn(cache: map<(int, int), int>, x: int, y: int, tx: int, ty: int, ci: int)
      requires CachedSame(cache, x, y, tx, ty, ci) && y + cfg.edgeWidth < ty
      ensures CachedSame(cache, x, y, tx + 1, y - cfg.edgeWidth, ci)
    {
    }

    /** Entries the cache keeps keep the agreeing prefix. */
    lemma CachedSameGrows(cache: map<(int, int), int>, bigger: map<(int, int), int>,
                          x: int, y: int, tx: int, ty: int, ci: int)
      requires CachedSame(cache, x, y, tx, ty, ci) && Extends(bigger, cache)
      ensures CachedSame(bigger, x, y, tx, ty, ci)
    {
    }

    /** Two pixels of one edge disk cached with different indices make (x, y) an edge pixel. */
    lemma EdgeFromCache(cache: map<(int, int), int>, x: int, y: int, tx: int, ty: int)
      requires Valid() && |points| > 0 && CacheAgrees(cache) && (x, y) in cache && (tx, ty) in cache
      requires cfg.InEdgeDisk(x, y, tx, ty) && cache[(tx, ty)] != cache[(x, y)]
      ensures EdgeAt(x, y)
    {
      CachedIsClassify(cache, x, y);
      CachedIsClassify(cache, tx, ty);
      EdgeAtIs(x, y);
    }

    /** When the whole edge disk is cached with the index of (x, y), it is not an edge pixel. */
    lemma NoEdgeFromCache(cache: map<(int, int), int>, x: int, y: int, tx: int, ty: int)
      requires Valid() && |points| > 0 && CacheAgrees(cache) && (x, y) in cache
      requires x + cfg.edgeWidth < tx && CachedSame(cache, x, y, tx, ty, cache[(x, y)])
      ensures !EdgeAt(x, y)
    {
      EdgeAtIs(x, y);
      CachedIsClassify(cache, x, y);
      forall tx', ty' | cfg.InEdgeDisk(x, y, tx', ty')
        ensures Classify(tx', ty') == Classify(x, y)
      {
        CachedIsClassify(cache, tx', ty');
      }
    }

    /**
     * The inner loop of isOnEdge, for column tx of the square around (x, y):
     * each row ty within edgeWidth whose pixel is inside the disk and the image
     * is classified, and the scan stops at the first index other than ci.
     */
    method ScanEdgeColumn(x: int, y: int, ci: int, ewSqr: int, tx: int) returns (found: bool)
      requires Valid() && |points| > 0
      requires ewSqr == cfg.edgeWidth * cfg.edgeWidth && x - cfg.edgeWidth <= tx <= x + cfg.edgeWidth
      requires (x, y) in indexCache && indexCache[(x, y)] == ci
      requires CachedSame(indexCache, x, y, tx, y - cfg.edgeWidth, ci)
      modifies this`indexCache
      ensures Extends(indexCache, old(indexCache))
      ensures !found ==> CachedSame(indexCache, x, y, tx + 1, y - cfg.edgeWidth, ci)
      ensures old(CacheAgrees(indexCache)) ==> CacheAgrees(indexCache) && (found ==> EdgeAt(x, y))
    {
      ghost var agree := CacheAgrees(indexCache);
      var ew := cfg.edgeWidth;
      var ty := y - ew;
      while ty < y + ew + 1
        invariant y - ew <= ty <= Max(y - ew, y + ew + 1)
        invariant Extends(indexCache, old(indexCache))
        invariant (x, y) in indexCache && indexCache[(x, y)] == ci
        invariant agree ==> CacheAgrees(indexCache)
        invariant CachedSame(indexCache, x, y, tx, ty, ci)
      {
        var dx := tx - x;
        var dy := ty - y;
        if SqrLen(dx, dy) <= ewSqr && 0 <= tx < cfg.width && 0 <= ty < cfg.height {
          ghost var before := indexCache;
          var ti := FindClosestPointIndex(tx, ty);
          if ti != ci {
            if agree {
              EdgeDiskTest(cfg, x, y, tx, ty, ewSqr);
              EdgeFromCache(indexCache, x, y, tx, ty);
            }
            return true;
          }
          CachedSameGrows(before, indexCache, x, y, tx, ty, ci);
          CachedSameStep(indexCache, x, y, tx, ty, ci);
        } else {
          CachedSameSkip(indexCache, x, y, tx, ty, ci, dx, dy, ewSqr);
        }
        ty := ty + 1;
      }
      CachedSameColumn(indexCache, x, y, tx, ty, ci);
      return false;
    }

    /**
     * isOnEdge: (x, y) is an edge pixel when some pixel of the image within
     * Euclidean distance edgeWidth of it, scanned column by column over the
     * square of half-side edgeWidth, has a different classification.
     */
    method IsOnEdge(x: int, y: int) returns (edge: bool)
      requires Valid() && |points| > 0
      modifies this`indexCache
      ensures Extends(indexCache, old(indexCache))
      ensures old(CacheAgrees(indexCache)) ==> CacheAgrees(indexCache) && (edge <==> EdgeAt(x, y))
    {
      ghost var agree := CacheAgrees(indexCache);
      var ci := FindClosestPointIndex(x, y);
      var ew := cfg.edgeWidth;
      var ewSqr := ew * ew;
      var tx := x - ew;
      while tx < x + ew + 1
        invariant x - ew <= tx <= Max(x - ew, x + ew + 1)
        invariant Extends(indexCache, old(indexCache))
        invariant (x, y) in indexCache && indexCache[(x, y)] == ci
        invariant agree ==> CacheAgrees(indexCache)
        invariant CachedSame(indexCache, x, y, tx, y - ew, ci)
      {
        var found := ScanEdgeColumn(x, y, ci, ewSqr, tx);
        if found {
          return true;
        }
        tx := tx + 1;
      }
      if agree {
        NoEdgeFromCache(indexCache, x, y, tx, y - ew);
      }
      return false;
    }

    /** The colour drawEdges gives pixel (x, y) when the cache agrees with the classifier. */
    ghost function Shade(x: int, y: int): Color
      reads this`points, this`grid, grid
      requires Valid() && |points| > 0
    {
      if cfg.IsOnBorder(x, y) || EdgeAt(x, y) then EdgeColor else BaseColor
    }

    /**
     * With a single seed whose distance bound (X + Y)^2 is below 1e30, every
     * pixel of the raster classifies to seed 0.
     */
    lemma SingleSeedClassify(x: int, y: int)
      requires Valid() && |points| == 1
      requires ((cfg.width + cfg.height) * (cfg.width + cfg.height)) as real < Unreached
      requires 0 <= x <= cfg.width && 0 <= y <= cfg.height
      ensures Classify(x, y) == 0
    {
      var ni := Candidates(x, y);
      assert ni[0] == 0;
      assert cfg.InRaster(points[0]);
      RasterWithinBox(points[0], PixelPoint(x, y), cfg.width, cfg.height);
      var k := ClassifyIsFirstMinimum(x, y);
    }

    /**
     * With a single seed no pixel is an edge pixel, so drawEdges paints the
     * border with the edge colour and everything else with the base colour.
     */
    lemma SingleSeedShade(x: int, y: int)
      requires Valid() && |points| == 1
      requires ((cfg.width + cfg.height) * (cfg.width + cfg.height)) as real < Unreached
      requires cfg.IsPixel(x, y)
      ensures !EdgeAt(x, y)
      ensures Shade(x, y) == if cfg.IsOnBorder(x, y) then EdgeColor else BaseColor
    {
      EdgeAtIs(x, y);
      SingleSeedClassify(x, y);
      forall tx, ty | cfg.InEdgeDisk(x, y, tx, ty)
        ensures Classify(tx, ty) == Classify(x, y)
      {
        SingleSeedClassify(tx, ty);
      }
    }

    /**
     * The degenerate configuration: when D exceeds the raster diagonal, the
     * sampler has placed exactly one point and only the border is shaded with
     * the edge colour.
     */
    lemma SingleSeedPicture()
      requires Valid() && Spaced() && |points| >= 1
      requires cfg.dist * cfg.dist > cfg.width * cfg.width + cfg.height * cfg.height
      requires ((cfg.width + cfg.height) * (cfg.width + cfg.height)) as real < Unreached
      ensures |points| == 1
      ensures forall x, y :: 0 <= x < cfg.width && 0 <= y < cfg.height ==>
                Shade(x, y) == if cfg.IsOnBorder(x, y) then EdgeColor else BaseColor
    {
      AtMostOnePoint();
      forall x, y | 0 <= x < cfg.width && 0 <= y < cfg.height
        ensures Shade(x, y) == if cfg.IsOnBorder(x, y) then EdgeColor else BaseColor
      {
        SingleSeedShade(x, y);
      }
    }

    /** Colour c is a paint drawEdges may give pixel (x, y): edge or base, edge on the border. */
    predicate Painted(x: int, y: int, c: Color)
    {
      (c == EdgeColor || c == BaseColor) && (cfg.IsOnBorder(x, y) ==> c == EdgeColor)
    }

    /**
     * One pixel of drawEdges: paint (x, y) with the edge colour on the border
     * (without classifying), else with the edge colour when isOnEdge holds,
     * else with the base colour; every other pixel keeps its colour.
     */
    method PaintPixel(x: int, y: int)
      requires Valid() && |points| > 0
      requires 0 <= x < image.Length0 && 0 <= y < image.Length1
      modifies this`indexCache, image
      ensures Extends(indexCache, old(indexCache))
      ensures Painted(x, y, image[x, y])
      ensures forall i, j :: 0 <= i < image.Length0 && 0 <= j < image.Length1 && (i != x || j != y) ==>
                image[i, j] == old(image[i, j])
      ensures old(CacheAgrees(indexCache)) ==> CacheAgrees(indexCache) && image[x, y] == old(Shade(x, y))
    {
      var edge := cfg.IsOnBorder(x, y);
      if !edge {
        edge := IsOnEdge(x, y);
      }
      image[x, y] := if edge then EdgeColor else BaseColor;
    }

    /**
     * The inner loop of drawEdges: paint every pixel of column x, top to
     * bottom; every other column keeps its colours.
     */
    method PaintColumn(x: int)
      requires Valid() && |points| > 0
      requires 0 <= x < image.Length0
      modifies this`indexCache, image
      ensures Extends(indexCache, old(indexCache))
      ensures forall y :: 0 <= y < image.Length1 ==> Painted(x, y, image[x, y])
      ensures forall i, j :: 0 <= i < image.Length0 && 0 <= j < image.Length1 && i != x ==>
                image[i, j] == old(image[i, j])
      ensures old(CacheAgrees(indexCache)) ==>
                CacheAgrees(indexCache) && forall y :: 0 <= y < image.Length1 ==> image[x, y] == old(Shade(x, y))
    {
      ghost var agree := CacheAgrees(indexCache);
      var y := 0;
      while y < image.Length1
        invariant 0 <= y <= image.Length1
        invariant unchanged(this`points, this`grid, grid)
        invariant Extends(indexCache, old(indexCache))
        invariant agree ==> CacheAgrees(indexCache)
        invariant forall y' :: 0 <= y' < y ==> Painted(x, y', image[x, y'])
        invariant agree ==> forall y' :: 0 <= y' < y ==> image[x, y'] == old(Shade(x, y'))
        invariant forall i, j :: 0 <= i < image.Length0 && 0 <= j < image.Length1 && i != x ==>
                    image[i, j] == old(image[i, j])
      {
        PaintPixel(x, y);
        y := y + 1;
      }
    }

    /**
     * drawEdges: paints every pixel of the width x height image once, column
     * by column, with the edge colour when it is on the border or on an edge,
     * else the base colour.
     */
    method DrawEdges()
      requires Valid() && |points| > 0
      requires image.Length0 == cfg.width && image.Length1 == cfg.height
      modifies this`indexCache, image
      ensures Extends(indexCache, old(indexCache))
      ensures forall x, y :: 0 <= x < cfg.width && 0 <= y < cfg.height ==> Painted(x, y, image[x, y])
      ensures old(CacheAgrees(indexCache)) ==>
                CacheAgrees(indexCache) &&
                forall x, y :: 0 <= x < cfg.width && 0 <= y < cfg.height ==> image[x, y] == old(Shade(x, y))
    {
      ghost var agree := CacheAgrees(indexCache);
      var x := 0;
      while x < cfg.width
        invariant 0 <= x <= cfg.width
        invariant unchanged(this`points, this`grid, grid)
        invariant Extends(indexCache, old(indexCache))
        invariant agree ==> CacheAgrees(indexCache)
        invariant forall x', y' :: 0 <= x' < x && 0 <= y' < cfg.height ==> Painted(x', y', image[x', y'])
        invariant agree ==>
                    forall x', y' :: 0 <= x' < x && 0 <= y' < cfg.height ==> image[x', y'] == old(Shade(x', y'))
      {
        PaintColumn(x);
        x := x + 1;
      }
    }

    /**
     * The first half of the driver: makeGrid, then fillGrid. The fresh grid
     * indexes the placed points, which lie in the raster at least D apart.
     */
    method PlacePoints(rand: seq<real>) returns (complete: bool)
      requires cfg.Valid() && cfg.EdgesInsideGrid() && UnitDraws(rand) && |rand| >= 2
      requires cfg.dist <= 2 * cfg.width && cfg.dist <= 2 * cfg.height
      requires points == []
      modifies this`points, this`grid
      ensures fresh(grid)
      ensures Valid() && Spaced() && |points| >= 1
    {
      MakeGrid();
      var rest;
      complete, rest := FillGrid(rand);
    }

    /**
     * The driver: makeGrid, fillGrid and drawEdges on a fresh generator. The
     * placed points lie in the raster at least D apart, the grid indexes them,
     * and every pixel has the colour that the border and the nearest-seed
     * classifier call for. When D exceeds the raster diagonal, exactly one
     * point is placed and only the border gets the edge colour.
     */
    method Generate(rand: seq<real>) returns (complete: bool)
      requires cfg.Valid() && cfg.EdgesInsideGrid() && UnitDraws(rand) && |rand| >= 2
      requires cfg.dist <= 2 * cfg.width && cfg.dist <= 2 * cfg.height
      requires points == [] && indexCache == map[]
      requires image.Length0 == cfg.width && image.Length1 == cfg.height
      modifies this`points, this`grid, this`indexCache, image
      ensures Valid() && Spaced() && |points| >= 1
      ensures CacheAgrees(indexCache)
      ensures forall x, y :: 0 <= x < cfg.width && 0 <= y < cfg.height ==> image[x, y] == Shade(x, y)
      ensures cfg.dist * cfg.dist > cfg.width * cfg.width + cfg.height * cfg.height &&
              ((cfg.width + cfg.height) * (cfg.width + cfg.height)) as real < Unreached ==>
                |points| == 1 &&
                forall x, y :: 0 <= x < cfg.width && 0 <= y < cfg.height ==>
                  image[x, y] == if cfg.IsOnBorder(x, y) then EdgeColor else BaseColor
    {
      complete := PlacePoints(rand);
      EmptyCacheAgrees();
      DrawEdges();
      if cfg.dist * cfg.dist > cfg.width * cfg.width + cfg.height * cfg.height &&
         ((cfg.width + cfg.height) * (cfg.width + cfg.height)) as real < Unreached {
        SingleSeedPicture();
      }
    }
  }
}
