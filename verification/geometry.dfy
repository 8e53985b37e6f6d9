/**
 * Plane geometry and configuration of the Voronoi scarf generator: seed points,
 * squared distances, Python's truncating int(), the raster and the uniform grid
 * that buckets seed points by cell.
 */
module Geometry {

  /** A seed point, in real-valued raster coordinates. */
  datatype Point = Point(x: real, y: real)

  /** Squared Euclidean distance; no decision of the generator takes a square root. */
  function DistSqr(p: Point, q: Point): (d: real)
    ensures d >= 0.0
  {
    (p.x - q.x) * (p.x - q.x) + (p.y - q.y) * (p.y - q.y)
  }

  function Min(a: int, b: int): int { if a <= b then a else b }
  function Max(a: int, b: int): int { if a >= b then a else b }
  function Abs(a: int): int { if a < 0 then -a else a }

  /** Python's int() applied to a float: rounds toward zero. */
  function Trunc(v: real): (t: int)
    ensures 0.0 <= v ==> 0 <= t && t as real <= v < t as real + 1.0
    ensures v < 0.0 ==> t <= 0 && v <= t as real < v + 1.0
  {
    if v >= 0.0 then v.Floor else -((-v).Floor)
  }

  /** Truncation toward zero never reverses an order. */
  lemma TruncMonotone(a: real, b: real)
    requires a <= b
    ensures Trunc(a) <= Trunc(b)
  {
    if 0.0 <= a {
      assert a.Floor <= b.Floor;
    } else if b < 0.0 {
      assert (-b).Floor <= (-a).Floor;
    }
  }

  /** Dividing by a positive cell size keeps the order of two coordinates. */
  lemma DivMonotone(a: real, b: real, g: real)
    requires a <= b && g > 0.0
    ensures a / g <= b / g
  {
    assert b / g - a / g == (b - a) / g;
  }

  /** Multiplying both sides by a non-negative factor keeps a weak order. */
  lemma MulLe(a: real, b: real, c: real)
    requires a <= b && 0.0 <= c
    ensures a * c <= b * c
  {
  }

  /** Multiplying both sides by a positive factor keeps a strict order. */
  lemma MulLt(a: real, b: real, c: real)
    requires a < b && 0.0 < c
    ensures a * c < b * c
  {
  }

  /** A number strictly inside (-b, b) has a square below b*b. */
  lemma SquareBelow(a: real, b: real)
    requires -b < a < b
    ensures a * a < b * b
  {
    var m := if a < 0.0 then -a else a;
    assert a * a == m * m;
    MulLe(m, b, m);
    MulLt(m, b, b);
  }

  /** A coordinate offset whose square is below r*r lies strictly within r. */
  lemma WithinRadius(a: real, r: real)
    requires r >= 0.0 && a * a < r * r
    ensures -r < a < r
  {
    var m := if a < 0.0 then -a else a;
    assert a * a == m * m;
    if m >= r {
      MulLe(r, m, r);
      MulLe(r, m, m);
    }
  }

  /** Two offsets whose absolute values sum below r give a squared distance below r*r. */
  lemma SumBelowRadius(dx: real, dy: real, r: real)
    requires (if dx < 0.0 then -dx else dx) + (if dy < 0.0 then -dy else dy) < r
    ensures dx * dx + dy * dy < r * r
  {
    var a := if dx < 0.0 then -dx else dx;
    var b := if dy < 0.0 then -dy else dy;
    assert dx * dx == a * a && dy * dy == b * b;
    assert a * a + b * b <= (a + b) * (a + b) by {
      assert (a + b) * (a + b) == a * a + b * b + 2.0 * (a * b);
      assert a * b >= 0.0;
    }
    SquareBelow(a + b, r);
  }

  /** A quotient by g strictly inside (-1, 1) comes from a number strictly inside (-g, g). */
  lemma QuotientWithinOne(d: real, g: real)
    requires g > 0.0 && -1.0 < d / g < 1.0
    ensures -g < d < g
  {
    assert (d / g) * g == d;
  }

  /** A quotient d / g that lies in [t, t + 1) puts d in [t*g, (t+1)*g). */
  lemma QuotientBracket(d: real, g: real, t: int)
    requires g > 0.0 && t as real <= d / g < t as real + 1.0
    ensures t as real * g <= d < (t + 1) as real * g
  {
    var q, u := d / g, (t + 1) as real;
    assert q * g == d;
    MulLe(t as real, q, g);
    MulLt(q, u, g);
    assert q * g < u * g;
    assert d < u * g;
    assert t as real * g <= d;
  }

  /** A number below n*g has its quotient by g below n. */
  lemma QuotientBelow(d: real, g: real, n: real)
    requires g > 0.0 && d < n * g
    ensures d / g < n
  {
  }

  /**
   * The raster and grid parameters. The source keeps them as module constants
   * (X, Y, DIST_BETWEEN_POINTS, GRID_SIZE, BORDER_WIDTH, CELL_EDGE_WIDTH,
   * POPULATION_RETRIES); here they are one value so that every property is
   * stated for all of them.
   */
  datatype Config = Config(width: int, height: int, dist: int, gridSize: int,
                           borderWidth: int, edgeWidth: int, retries: int)
  {
    /**
     * Positive raster and spacing; the cell size satisfies 2*G*G <= D*D, the
     * integer form of G <= D / sqrt(2), so a cell's diagonal is at most D.
     */
    predicate Valid()
    {
      width > 0 && height > 0 && dist > 0 && gridSize > 0 &&
      2 * gridSize * gridSize <= dist * dist
    }

    /**
     * Points on the raster's far edges (x == width, y == height) fall inside
     * the grid: the last column and row reach strictly past the raster. This
     * fails exactly when width or height is a multiple of G.
     */
    predicate EdgesInsideGrid()
      requires Valid()
    {
      width < GridWidth() * gridSize && height < GridHeight() * gridSize
    }

    /** Number of grid columns: ceil(width / G). */
    function GridWidth(): (gx: int)
      requires Valid()
      ensures gx >= 1 && (gx - 1) * gridSize < width <= gx * gridSize
    {
      (width + gridSize - 1) / gridSize
    }

    /** Number of grid rows: ceil(height / G). */
    function GridHeight(): (gy: int)
      requires Valid()
      ensures gy >= 1 && (gy - 1) * gridSize < height <= gy * gridSize
    {
      (height + gridSize - 1) / gridSize
    }

    /**
     * GRID_SIZE is exactly int(D / sqrt(2)): the largest G with 2*G*G <= D*D.
     * Valid() admits any smaller positive G as well.
     */
    predicate GridSizeExact()
    {
      IsGridSizeOf(dist, gridSize)
    }

    /** Grid column of a point: int(x / G). */
    function CellX(p: Point): int
      requires gridSize > 0
    {
      Trunc(p.x / gridSize as real)
    }

    /** Grid row of a point: int(y / G). */
    function CellY(p: Point): int
      requires gridSize > 0
    {
      Trunc(p.y / gridSize as real)
    }

    /**
     * A point of the non-negative quadrant lies in its cell: the cell
     * (CellX(p), CellY(p)) spans [CellX*G, (CellX+1)*G) x [CellY*G, (CellY+1)*G).
     */
    lemma CellContains(p: Point)
      requires gridSize > 0 && p.x >= 0.0 && p.y >= 0.0
      ensures CellX(p) >= 0 && CellY(p) >= 0
      ensures CellX(p) as real * gridSize as real <= p.x < (CellX(p) + 1) as real * gridSize as real
      ensures CellY(p) as real * gridSize as real <= p.y < (CellY(p) + 1) as real * gridSize as real
    {
      var g := gridSize as real;
      QuotientBracket(p.x, g, CellX(p));
      QuotientBracket(p.y, g, CellY(p));
    }

    /** The closed rectangle [0, width] x [0, height] that legal points may occupy. */
    predicate InRaster(p: Point)
    {
      0.0 <= p.x <= width as real && 0.0 <= p.y <= height as real
    }

    /** A pixel of the image: [0, width) x [0, height). */
    predicate IsPixel(x: int, y: int)
    {
      0 <= x < width && 0 <= y < height
    }

    /** Whether a pixel lies in the frame of width borderWidth around the image. */
    predicate IsOnBorder(x: int, y: int)
    {
      x < borderWidth || x + borderWidth >= width ||
      y < borderWidth || y + borderWidth >= height
    }

    /** The border is the set of pixels closer than borderWidth to some side of the image. */
    lemma BorderIsFrame(x: int, y: int)
      ensures IsOnBorder(x, y) <==> Min(Min(x, width - 1 - x), Min(y, height - 1 - y)) < borderWidth
    {
    }

    /**
     * The pixels isOnEdge compares with (x, y): inside the scanned square of
     * half-side edgeWidth, within Euclidean distance edgeWidth, and inside the image.
     */
    predicate InEdgeDisk(x: int, y: int, tx: int, ty: int)
    {
      x - edgeWidth <= tx <= x + edgeWidth && y - edgeWidth <= ty <= y + edgeWidth &&
      SqrLen(tx - x, ty - y) <= edgeWidth * edgeWidth &&
      IsPixel(tx, ty)
    }
  }

  /**
   * The constants of scarf.py: a 100 by 1200 strip, D = 25, G = int(25 / sqrt 2)
   * = 17, border and edge width 4, 30 retries. They meet every requirement the
   * model places on a configuration, and G is exactly int(D / sqrt 2).
   */
  function SourceConfig(): (c: Config)
    ensures c.Valid() && c.GridSizeExact() && c.EdgesInsideGrid()
    ensures c.dist <= 2 * c.width && c.dist <= 2 * c.height
    ensures c.borderWidth >= 0 && c.edgeWidth >= 0 && c.retries > 0
  {
    Config(100, 1200, 25, 17, 4, 4, 30)
  }

  /** Squaring keeps order on non-negative integers. */
  lemma SquareMono(a: int, b: int)
    requires 0 <= a <= b
    ensures a * a <= b * b
  {
    assert a * a <= a * b <= b * b;
  }

  /**
   * A spacing above the raster diagonal, together with D <= 2X and D <= 2Y,
   * forces a nearly square raster: each side squared is below three times the
   * other side squared.
   */
  lemma DiagonalSpacingShape(c: Config)
    requires c.Valid() && c.dist <= 2 * c.width && c.dist <= 2 * c.height
    requires c.dist * c.dist > c.width * c.width + c.height * c.height
    ensures c.height * c.height < 3 * (c.width * c.width)
    ensures c.width * c.width < 3 * (c.height * c.height)
  {
    SquareMono(c.dist, 2 * c.width);
    SquareMono(c.dist, 2 * c.height);
  }

  /** The squared length dx*dx + dy*dy of an integer pixel offset. */
  function SqrLen(dx: int, dy: int): int
  {
    dx * dx + dy * dy
  }

  /**
   * Inside the scanned square, isOnEdge's two skip tests (distance above
   * edgeWidth, pixel outside the image) reject exactly the pixels outside
   * the edge disk.
   */
  lemma EdgeDiskTest(c: Config, x: int, y: int, tx: int, ty: int, ewSqr: int)
    requires ewSqr == c.edgeWidth * c.edgeWidth
    requires x - c.edgeWidth <= tx <= x + c.edgeWidth && y - c.edgeWidth <= ty <= y + c.edgeWidth
    ensures c.InEdgeDisk(x, y, tx, ty) <==>
              SqrLen(tx - x, ty - y) <= ewSqr && 0 <= tx < c.width && 0 <= ty < c.height
  {
  }

  /** An integer offset whose square is at most w*w lies within w. */
  lemma SquareBound(d: int, w: int)
    requires w >= 0 && d * d <= w * w
    ensures -w <= d <= w
  {
  }

  /** The scanned square adds nothing once edgeWidth >= 0: the disk lies inside it. */
  lemma EdgeDiskIsDisk(c: Config, x: int, y: int, tx: int, ty: int)
    requires c.edgeWidth >= 0
    ensures c.InEdgeDisk(x, y, tx, ty) <==>
              SqrLen(tx - x, ty - y) <= c.edgeWidth * c.edgeWidth && c.IsPixel(tx, ty)
  {
    var w, dx, dy := c.edgeWidth, tx - x, ty - y;
    if SqrLen(dx, dy) <= w * w {
      assert dx * dx >= 0 && dy * dy >= 0;
      assert dx * dx <= w * w && dy * dy <= w * w;
      SquareBound(dx, w);
      SquareBound(dy, w);
    }
  }

  /** g is int(d / sqrt(2)) for d >= 0: the largest g with 2*g*g <= d*d. */
  predicate IsGridSizeOf(d: int, g: int)
  {
    2 * g * g <= d * d < 2 * (g + 1) * (g + 1)
  }

  /**
   * GRID_SIZE = int(D / sqrt(2)) computed without irrationals: the largest g
   * with 2*g*g <= d*d, which is floor(d / sqrt(2)).
   */
  method GridSizeFor(d: nat) returns (g: nat)
    ensures IsGridSizeOf(d, g)
  {
    g := 0;
    while 2 * (g + 1) * (g + 1) <= d * d
      invariant 2 * g * g <= d * d
      decreases d * d - 2 * g * g
    {
      g := g + 1;
    }
  }

  /**
   * Every coordinate of [0, extent] has its cell int(v / g) in [0, n) when the
   * n cells of size g reach strictly past extent.
   */
  lemma CoordCellInGrid(extent: int, n: int, g: int, v: real)
    requires g > 0 && extent < n * g
    requires 0.0 <= v <= extent as real
    ensures 0 <= Trunc(v / g as real) < n
  {
    assert extent as real < n as real * g as real;
    QuotientBelow(extent as real, g as real, n as real);
    DivMonotone(v, extent as real, g as real);
  }

  /**
   * Two non-negative coordinates in the same cell differ by less than the
   * cell size.
   */
  lemma SameCellClose(g: int, a: real, b: real)
    requires g > 0 && 0.0 <= a && 0.0 <= b
    requires Trunc(a / g as real) == Trunc(b / g as real)
    ensures -(g as real) < a - b < g as real
  {
    var gr := g as real;
    assert a / gr - b / gr == (a - b) / gr;
    QuotientWithinOne(a - b, gr);
  }

  /**
   * A coordinate v strictly within r of c has its cell inside the
   * clamped cell range the radius query scans along that axis.
   */
  lemma AxisCellInRange(c: real, v: real, r: real, g: int, n: int)
    requires g > 0 && c - r < v < c + r
    requires 0.0 <= v && Trunc(v / g as real) < n
    ensures Max(0, Trunc((c - r) / g as real)) <= Trunc(v / g as real) <= Min(Trunc((c + r) / g as real) + 1, n - 1)
  {
    var gr := g as real;
    DivMonotone(c - r, v, gr);
    DivMonotone(v, c + r, gr);
    TruncMonotone((c - r) / gr, v / gr);
    TruncMonotone(v / gr, (c + r) / gr);
  }

  /** A number within [-b, b] has a square at most b*b. */
  lemma SquareAtMost(a: real, b: real)
    requires -b <= a <= b
    ensures a * a <= b * b
  {
    var m := if a < 0.0 then -a else a;
    assert a * a == m * m;
    MulLe(m, b, m);
    MulLe(m, b, b);
  }

  /**
   * Offsets within a w-by-h box have a squared length strictly below
   * (w + h)^2, the initial best distance of the brute-force classifier.
   */
  lemma WithinBox(dx: real, dy: real, w: real, h: real)
    requires w > 0.0 && h > 0.0 && -w <= dx <= w && -h <= dy <= h
    ensures dx * dx + dy * dy < (w + h) * (w + h)
  {
    SquareAtMost(dx, w);
    SquareAtMost(dy, h);
    assert (w + h) * (w + h) == w * w + h * h + 2.0 * (w * h);
    MulLt(0.0, w, h);
  }

  /**
   * Two points of the closed w-by-h raster are closer than w + h: their squared
   * distance is below the integer (w + h)^2.
   */
  lemma RasterWithinBox(p: Point, q: Point, w: int, h: int)
    requires w > 0 && h > 0
    requires 0.0 <= p.x <= w as real && 0.0 <= p.y <= h as real
    requires 0.0 <= q.x <= w as real && 0.0 <= q.y <= h as real
    ensures DistSqr(p, q) < ((w + h) * (w + h)) as real
  {
    var wr := w as real;
    var hr := h as real;
    WithinBox(p.x - q.x, p.y - q.y, wr, hr);
    assert ((w + h) * (w + h)) as real == (wr + hr) * (wr + hr);
  }

  /**
   * Two points of the closed w-by-h raster are strictly closer than d when
   * d*d exceeds the squared diagonal w*w + h*h.
   */
  lemma WithinDiagonal(p: Point, q: Point, w: int, h: int, d: int)
    requires 0.0 <= p.x <= w as real && 0.0 <= p.y <= h as real
    requires 0.0 <= q.x <= w as real && 0.0 <= q.y <= h as real
    requires d * d > w * w + h * h
    ensures DistSqr(p, q) < d as real * d as real
  {
    var dx := p.x - q.x;
    var dy := p.y - q.y;
    SquareAtMost(dx, w as real);
    SquareAtMost(dy, h as real);
    assert DistSqr(p, q) == dx * dx + dy * dy;
    assert (d * d) as real == d as real * d as real;
    assert (w * w) as real == w as real * w as real;
    assert (h * h) as real == h as real * h as real;
  }

  /** The integer bound 2*G*G <= D*D read over the reals. */
  lemma CellBoundReal(g: int, d: int)
    requires 2 * g * g <= d * d
    ensures 2.0 * (g as real * g as real) <= d as real * d as real
  {
    assert (g * g) as real == g as real * g as real;
    assert (d * d) as real == d as real * d as real;
  }

  /** Two points of the same cell are closer than D, because 2*G*G <= D*D. */
  lemma SameCellNear(c: Config, o: Point, p: Point)
    requires c.Valid() && 0.0 <= o.x && 0.0 <= o.y && 0.0 <= p.x && 0.0 <= p.y
    requires c.CellX(o) == c.CellX(p) && c.CellY(o) == c.CellY(p)
    ensures DistSqr(o, p) < c.dist as real * c.dist as real
  {
    var g := c.gridSize as real;
    var ax := o.x - p.x;
    var ay := o.y - p.y;
    SameCellClose(c.gridSize, o.x, p.x);
    SameCellClose(c.gridSize, o.y, p.y);
    SquareBelow(ax, g);
    SquareBelow(ay, g);
    assert DistSqr(o, p) == ax * ax + ay * ay;
    CellBoundReal(c.gridSize, c.dist);
  }

  /** Each of two squares is below a bound their sum is below. */
  lemma EachSquareBelow(a: real, b: real, s: real)
    requires a * a + b * b < s
    ensures a * a < s && b * b < s
  {
    assert a * a >= 0.0;
    assert b * b >= 0.0;
  }

  /**
   * The cell int(v / G) lies in the range int((c - r) / G) .. int((c + r) / G) + 1
   * that a radius-r query around c scans on one axis, clamped to [0, n).
   */
  predicate InQueryRange(c: real, v: real, r: real, g: int, n: int)
    requires g > 0
  {
    Max(0, Trunc((c - r) / g as real)) <= Trunc(v / g as real) <= Min(Trunc((c + r) / g as real) + 1, n - 1)
  }

  /** Each axis offset of two points squares below any bound on their squared distance. */
  lemma AxesBelow(p: Point, q: Point, b: real)
    requires DistSqr(p, q) < b
    ensures (p.x - q.x) * (p.x - q.x) < b && (p.y - q.y) * (p.y - q.y) < b
  {
    EachSquareBelow(p.x - q.x, p.y - q.y, b);
  }

  /** A point strictly within r of q lies strictly inside the square of half-side r around q. */
  lemma WithinSquare(p: Point, q: Point, r: real)
    requires r >= 0.0 && DistSqr(p, q) < r * r
    ensures q.x - r < p.x < q.x + r && q.y - r < p.y < q.y + r
  {
    AxesBelow(p, q, r * r);
    WithinRadius(p.x - q.x, r);
    WithinRadius(p.y - q.y, r);
  }

  /**
   * A point p strictly inside the square of half-side r around q, whose cell
   * lies in an nx-by-ny grid, has its cell inside the clamped box a radius-r
   * query around q scans.
   */
  lemma NearPointCellInRange(q: Point, p: Point, r: real, g: int, nx: int, ny: int)
    requires g > 0 && q.x - r < p.x < q.x + r && q.y - r < p.y < q.y + r
    requires 0.0 <= p.x && 0.0 <= p.y
    requires Trunc(p.x / g as real) < nx && Trunc(p.y / g as real) < ny
    ensures InQueryRange(q.x, p.x, r, g, nx) && InQueryRange(q.y, p.y, r, g, ny)
  {
    AxisCellInRange(q.x, p.x, r, g, nx);
    AxisCellInRange(q.y, p.y, r, g, ny);
  }

  /**
   * A point of the w-by-h raster is strictly within r of the query (x, y) once
   * r >= |x| + |y| + w + h + 1.
   */
  lemma RasterWithinReach(p: Point, x: int, y: int, w: int, h: int, r: int)
    requires 0.0 <= p.x <= w as real && 0.0 <= p.y <= h as real
    requires r >= Abs(x) + Abs(y) + w + h + 1
    ensures DistSqr(p, Point(x as real, y as real)) < r as real * r as real
  {
    var q := Point(x as real, y as real);
    var dx, dy, rr := p.x - q.x, p.y - q.y, r as real;
    assert dx * dx + dy * dy < rr * rr by {
      assert (if dx < 0.0 then -dx else dx) <= w as real + Abs(x) as real;
      assert (if dy < 0.0 then -dy else dy) <= h as real + Abs(y) as real;
      SumBelowRadius(dx, dy, rr);
    }
    assert DistSqr(p, q) == dx * dx + dy * dy;
  }
}
