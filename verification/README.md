# Voronoi scarf generator, modelled in Dafny

`scarf.py` draws a tall strip of Voronoi-like cells. It has two stages.

First it scatters seed points by Bridson-style Poisson-disk sampling:
- Every seed is at least `DIST_BETWEEN_POINTS` (D) from every other one.
- A uniform grid of cells of side `GRID_SIZE` (G) holds at most one point per cell.
- Each new point is drawn in the annulus `[D, 2D]` around an active point.

Then it paints an image:
- Every pixel is classified to its nearest seed.
- The radius of the grid query around the pixel doubles until the query finds a seed.
- The result is memoised per pixel in `indexCache`.
- A pixel gets the edge colour when it lies in the border frame, or when some pixel within Euclidean distance `CELL_EDGE_WIDTH` classifies differently. Otherwise it gets the base colour.

The model has four modules:

- `geometry.dfy` (`Geometry`): contains
  - points and squared distances;
  - Python's truncating `int()` on floats (`Trunc`);
  - the configuration `Config`, which holds X, Y, D, G, `BORDER_WIDTH`, `CELL_EDGE_WIDTH` and `POPULATION_RETRIES` as parameters;
  - the grid dimensions and cell of a point;
  - the border and edge-disk predicates;
  - the arithmetic lemmas behind the grid.

  `GRID_SIZE = int(D / sqrt 2)` is stated without irrationals. `Config.Valid()` admits any positive G with `2*G*G <= D*D`, which is all the proofs need. `Config.GridSizeExact()` states that G is the largest such value, as the source computes it. `SourceConfig` is the configuration of scarf.py, and it meets both.
- `draws.dfy` (`Draws`):
  - `random.uniform` and `random.randrange` are driven by a supplied sequence of unit draws in `[0, 1)`.
  - `genDisplacedPoint` is a loop over that sequence.
- `nearest.dfy` (`Nearest`): the strict-`<` argmin loop that both classifiers share. It is specified as a fold (`ScanClosest`) and characterised as "first minimum".
- `scarf.dfy` (`Scarf`): the module globals `points`, `grid`, `indexCache` and the image become fields of class `Generator`. The grid is an `array2<int>` with -1 for an empty cell. The image is an `array2` of RGB triples. On this class:
  - `makeGrid`, `addPointToGrid`, `fillGrid`, `findClosestPointIndex(Old)`, `isOnEdge` and `drawEdges` are methods that change the generator's state.
  - The loops are `FillGrid`, `TryAround`, `GrowRadius` (the radius-doubling `while` of `findClosestPointIndex`), `ScanEdgeColumn` and `IsOnEdge`, and `PaintColumn` and `DrawEdges`. The argmin `for` that both classifiers share is `Nearest.ClosestAmong`.
  - `MakeGrid` and `AddPointToGrid` have no loop. The list comprehension becomes a fresh `array2`, and the append and cell write are two assignments.
  - `findPointInGrid`, `findNeighbor(Indice)sInGrid` and `isLegalPoint` are functions over the current state.

Main invariants:
- `Valid()`: the grid indexes the points. Every point lies in the raster `[0, X] x [0, Y]` and sits in its own cell. Every non-empty cell holds the index of a point in that cell.
- `Spaced()`: every two points are at least D apart.
- `CacheAgrees(cache)`: every cache entry is what the classifier (`Classify`) computes for that pixel.

`Classify` is the specification of `findClosestPointIndex` on a cache miss. The query radii are 2D, 4D, 8D, …, up to the first non-empty query (`FirstRadius`). The result is the argmin over that query's candidates, starting from 1e30 and -1.

Three behaviours of the code shape the model:
- `addPointToGrid` does not clamp the cell of a point, so the model requires the cell to lie in the grid.
- The first query of `findClosestPointIndex` uses radius 2D, because `r` doubles before the first query.
- The code raises no configuration error and detects no stall. The model excludes invalid configurations with `Config.Valid()`.

## Model

| member | source | states |
|---|---|---|
| Geometry.Trunc | scarf.py:125-126 | `int()` of a float rounds toward zero: for `v >= 0`, `t <= v < t + 1`; for `v < 0`, `v <= t < v + 1` |
| Geometry.TruncMonotone | scarf.py:130-133 | truncation keeps order, so lower query bounds never exceed upper ones |
| Geometry.Config.GridWidth | scarf.py:119 | the number of grid columns is `ceil(X / G)`: the least `gx` with `X <= gx * G` |
| Geometry.Config.GridHeight | scarf.py:120 | the number of grid rows is `ceil(Y / G)` |
| Geometry.GridSizeFor | scarf.py:41 | the computed G is the largest `g` with `2*g*g <= D*D`, i.e. `floor(D / sqrt 2)` |
| Geometry.SourceConfig | scarf.py:27-41 | the constants X = 100, Y = 1200, D = 25, G = 17, widths 4 and 30 retries form a valid configuration; G is exactly `int(D / sqrt 2)`; X and Y are not multiples of G; and `D <= 2X`, `D <= 2Y` |
| Geometry.DiagonalSpacingShape | scarf.py:213-216 | when D exceeds the raster diagonal and the seed box `[D/2, X - D/2] x [D/2, Y - D/2]` is non-empty (`D <= 2X`, `D <= 2Y`), each side squared is below three times the other side squared |
| Geometry.Config.CellX | scarf.py:125 | the grid column `int(x / G)`, truncating toward zero as Python's `int()` does (see `CellContains`) |
| Geometry.Config.CellY | scarf.py:126 | the grid row `int(y / G)`, truncating toward zero |
| Geometry.Config.CellContains | scarf.py:125-126 | a point with non-negative coordinates lies in its cell: `CellX*G <= x < (CellX+1)*G`, and the same for y |
| Geometry.Config.IsOnBorder | scarf.py:93-95 | `isOnBorder`'s four-way `or`; `BorderIsFrame` shows it is the frame of width `BORDER_WIDTH` |
| Geometry.SameCellNear | scarf.py:41 | two non-negative points in one cell are strictly closer than D, because `2*G*G <= D*D` |
| Geometry.CoordCellInGrid | scarf.py:205-206 | a coordinate in `[0, extent]` has its cell in `[0, n)` when the n cells reach strictly past the extent |
| Geometry.WithinSquare | scarf.py:148-151 | a point strictly within r of the query (`dx*dx + dy*dy < r*r`) lies strictly inside the square of half-side r around it |
| Geometry.NearPointCellInRange | scarf.py:130-139 | a point strictly inside that square whose cell is in the grid has its cell inside the clamped cell range the query scans (`InQueryRange` on each axis) |
| Geometry.RasterWithinBox | scarf.py:56 | any two raster points have squared distance below the integer `(X + Y)^2`, the brute-force classifier's starting bound |
| Geometry.RasterWithinReach | scarf.py:76-78 | a raster point is within any radius of at least `abs(x) + abs(y) + X + Y + 1` of the pixel, so the doubling radius eventually finds it |
| Geometry.Config.BorderIsFrame | scarf.py:93-95 | `isOnBorder` holds exactly when the pixel is closer than `BORDER_WIDTH` to some side of the image |
| Geometry.EdgeDiskTest | scarf.py:104-109 | inside the scanned square, the two `continue` tests of `isOnEdge` skip exactly the pixels outside the edge disk |
| Geometry.EdgeDiskIsDisk | scarf.py:102-109 | the scanned square adds no constraint: a pixel is in the edge disk iff its squared offset is at most `CELL_EDGE_WIDTH^2` and it lies in the image |
| Draws.Uniform | scarf.py:192-193 | `uniform(a, b)` lies between `a` and `b`, in whichever order they are given |
| Draws.RandRange | scarf.py:222 | `randrange(n)` is an index in `[0, n)` |
| Draws.CandidateAt | scarf.py:192-193 | each candidate lies in the square of half-side `maxRadius` around the centre |
| Draws.GenDisplacedPoint | scarf.py:190-202 | the returned candidate is the first of the drawn candidates whose squared offset lies in `[minR^2, maxR^2]`, and every earlier candidate was outside; with fewer than two draws left, nothing is returned |
| Nearest.ScanClosest | scarf.py:80-89 | the argmin loop as a left fold with strict `<`; the index it keeps is the starting index or one of the candidates |
| Nearest.ScanKeepsStart | scarf.py:80-89 | when no candidate beats the starting distance, the argmin loop keeps the starting index |
| Nearest.ScanFindsFirstMinimum | scarf.py:80-89 | when some candidate beats the starting distance, the loop returns the candidate at the first minimum; ties go to the earliest |
| Nearest.ClosestAmong | scarf.py:80-89 | the argmin loop over a candidate list computes the fold `ScanClosest` from the given start |
| Scarf.Generator.constructor | scarf.py:43-49 | before `makeGrid`: no points, empty cache, no grid, black X-by-Y image |
| Scarf.Generator.MakeGrid | scarf.py:116-122 | a fresh `ceil(X/G)` by `ceil(Y/G)` grid with every cell -1; with no points yet, the grid indexes them |
| Scarf.Generator.FindPointInGrid | scarf.py:124-127 | on an indexing grid, the cell content is -1 iff no point shares p's cell, and otherwise the index of such a point |
| Scarf.Generator.QueryBox | scarf.py:130-139 | the cell rectangle of a radius-r query: `int((q - r)/G)` to `int((q + r)/G) + 1` on each axis, clamped so that it lies inside the grid |
| Scarf.Generator.ScanColumn | scarf.py:142-152 | the indices one scanned column yields, in row order; each is a valid point index (exact membership in `ScanColumnMembers`) |
| Scarf.Generator.ScanRows | scarf.py:141-152 | the indices the scanned columns yield, column by column; each is a valid point index (exact membership in `ScanRowsMembers`) |
| Scarf.Generator.NeighborIndicesInGrid | scarf.py:129-152 | the generator `findNeighborIndicesInGrid` as the sequence it yields; every index is a valid point index, and `QueryExact` shows the indices are exactly the points strictly within r, each once |
| Scarf.Generator.ScanColumnMembers | scarf.py:142-152 | one column of the query yields exactly the points of that column's scanned rows strictly within r, each once |
| Scarf.Generator.ScanRowsMembers | scarf.py:141-152 | the scanned columns yield exactly the points whose cell is in the scanned rectangle and which lie strictly within r, each once |
| Scarf.Generator.CellInQueryBox | scarf.py:130-139 | every point strictly within r of the query has its cell in the clamped rectangle |
| Scarf.Generator.QueryExact | scarf.py:129-152 | on an indexing grid, `findNeighborIndicesInGrid` yields exactly the indices of the points strictly within r, without duplicates |
| Scarf.Generator.QueryEmpty | scarf.py:129-152 | the query is empty iff every point is at distance at least r |
| Scarf.Generator.NeighborsInGrid | scarf.py:154-177 | `findNeighborsInGrid` yields as many points as the index query; its j-th point is the stored point at the j-th index of that query, so the order is kept; its points are stored points within r, and every stored point within r appears |
| Scarf.Generator.IsLegalPoint | scarf.py:179-188 | a candidate is legal iff it lies in `[0, X] x [0, Y]`, edges included, and no stored point is strictly closer than D |
| Scarf.Generator.NoNeighborsIsLegal | scarf.py:185-188 | the first `for ... return False` fires iff some stored point is strictly closer than D |
| Scarf.Generator.LegalCellEmpty | scarf.py:204-207 | when X and Y are not multiples of G, a legal point's cell is inside the grid and empty, so no cell is ever overwritten |
| Scarf.Generator.AddPointToGrid | scarf.py:204-208 | writes i into p's cell, appends p, and changes no other cell; with `i == len(points)`, a raster point and an empty cell, the grid still indexes the points |
| Scarf.Generator.TryOnce | scarf.py:226-227 | one retry: a candidate from the annulus `[D, 2D]`, and whether `isLegalPoint` accepts it |
| Scarf.Generator.TryAround | scarf.py:225-232 | at most `POPULATION_RETRIES` candidates; a placed point is legal and in the annulus, and every candidate tried before it was in the annulus but illegal; exhausting means all retries were illegal |
| Scarf.Generator.Grow | scarf.py:222-234 | one round keeps the grid indexing the points, keeps them spaced and keeps the active list inside `points`; it either appends one point to both lists, or pops exactly the chosen entry and leaves `points` unchanged |
| Scarf.Generator.FillGrid | scarf.py:210-234 | after sampling, the grid indexes the points, every two points are at least D apart, and there is at least one point |
| Scarf.Generator.SpacedInRasterAtMostOne | scarf.py:179-188 | when D² exceeds X² + Y², at most one raster point can be at least D from all others, because any two raster points are closer than the diagonal |
| Scarf.Generator.AtMostOnePoint | scarf.py:210-234 | when D² exceeds X² + Y², a generator whose points are indexed and spaced holds at most one point; with `FillGrid`'s "at least one point" this is exactly one |
| Scarf.Generator.QueryReaches | scarf.py:76-78 | once points exist, a large enough radius gives a non-empty query, so the doubling loop terminates |
| Scarf.Generator.FirstRadius | scarf.py:74-78 | the radius at which the loop stops is at least twice the start radius, and its query is non-empty |
| Scarf.Generator.FirstRadiusDoubles | scarf.py:75-78 | the stopping radius is D doubled k >= 1 times, and every smaller doubling gave an empty query |
| Scarf.Generator.Classify | scarf.py:74-89 | the cache-miss result of `findClosestPointIndex`: -1 or a point index. `FirstRadiusDoubles` and `ClassifyIsFirstMinimum` characterise it |
| Scarf.Generator.Candidates | scarf.py:74-78 | the candidates compared are valid point indices, and there is at least one |
| Scarf.Generator.ClassifyIsFirstMinimum | scarf.py:80-89 | the classification is the candidate at the first minimum of the squared distances, the first-yielded one on ties |
| Scarf.Generator.ClassifyUnreached | scarf.py:80-89 | if every candidate is at least 1e30 away, the result stays -1 |
| Scarf.Generator.GrowRadius | scarf.py:74-78 | the radius loop returns exactly the first non-empty query of radius 2D, 4D, … |
| Scarf.Generator.ClassifyPixel | scarf.py:74-89 | the cache-miss computation returns the pixel's classification |
| Scarf.Generator.EmptyCacheAgrees | scarf.py:47 | the initial empty cache agrees with the classifier |
| Scarf.Generator.CachedIsClassify | scarf.py:70-72 | in an agreeing cache, a cache hit returns the classification |
| Scarf.Generator.CacheInsert | scarf.py:90 | storing a pixel's classification keeps the cache agreeing |
| Scarf.Generator.CacheStore | scarf.py:90 | the cache write adds exactly the new entry, keeps every old one, and keeps an agreeing cache agreeing |
| Scarf.Generator.FindClosestPointIndex | scarf.py:69-91 | a hit returns the cached index and leaves the cache unchanged; a miss returns the classification and adds exactly that entry; afterwards the pixel is cached with the result, so a repeated call returns the same index |
| Scarf.Generator.OldClassify | scarf.py:56-65 | the brute-force argmin over all points, from `(X + Y)^2` and -1: -1 or a point index. `OldIsLowestNearest` characterises it |
| Scarf.Generator.OldIsLowestNearest | scarf.py:56-65 | for a pixel in the raster, the brute-force loop returns the lowest index among the nearest points |
| Scarf.Generator.FindClosestPointIndexOld | scarf.py:51-67 | a hit returns the cached index; a miss returns the brute-force argmin and caches it |
| Scarf.Generator.EdgeFromCache | scarf.py:110-112 | two pixels of one edge disk with different classifications make the pixel an edge pixel |
| Scarf.Generator.NoEdgeFromCache | scarf.py:102-113 | when the whole edge disk classifies like the pixel, it is not an edge pixel |
| Scarf.Generator.ScanEdgeColumn | scarf.py:103-112 | one column of the scan stops with true only at a pixel of the disk with a different classification, else every disk pixel of the column is cached with the pixel's index |
| Scarf.Generator.IsOnEdge | scarf.py:97-113 | the result is true iff some image pixel within Euclidean distance `CELL_EDGE_WIDTH` classifies differently from (x, y); the cache only grows |
| Scarf.Generator.PaintPixel | scarf.py:240-245 | one pixel gets the edge colour on the border or on an edge, else the base colour; no other pixel changes |
| Scarf.Generator.PaintColumn | scarf.py:239-245 | every pixel of one column is painted that way, and the other columns are untouched |
| Scarf.Generator.DrawEdges | scarf.py:236-245 | every pixel of `[0, X) x [0, Y)` is painted: border pixels with the edge colour, and with an agreeing cache exactly the colour that border-or-edge calls for |
| Scarf.Generator.SingleSeedClassify | scarf.py:69-91 | with exactly one point and `(X + Y)^2` below 1e30, every pixel of the image (edges included) classifies to point 0 |
| Scarf.Generator.SingleSeedShade | scarf.py:97-113 | with exactly one point, no pixel is an edge pixel, so a pixel gets the edge colour iff it lies on the border |
| Scarf.Generator.SingleSeedPicture | scarf.py:236-245 | when D² exceeds X² + Y², a spaced indexed generator with a point has exactly one point, and the picture is the base colour with an edge-coloured border frame |
| Scarf.Generator.PlacePoints | scarf.py:249-250 | `makeGrid` then `fillGrid`: a fresh grid indexing at least one point, the points spaced at least D apart |
| Scarf.Generator.Generate | scarf.py:249-251 | `makeGrid`, `fillGrid`, `drawEdges` on a fresh generator: spaced points indexed by the grid, and every pixel coloured as border-or-edge calls for; when D² exceeds X² + Y² (and `(X + Y)^2` is below 1e30), exactly one point and only the border frame in the edge colour. With `D <= 2X` and `D <= 2Y` that case needs `max(X, Y)^2 < 3 min(X, Y)^2` (`DiagonalSpacingShape`) |

## Left out

- PIL: the image is an `array2` of RGB triples, and `save` to PNG and TIFF (scarf.py:253-254) is not modelled.
- The module-level driver is modelled as `Generate`. Its `|rand| >= 2` precondition stands for a random source that always yields the first seed point.
- `random.uniform` and `random.randrange` are functions of supplied unit draws. Their distribution is not modelled, and every property holds for every draw sequence.
- GenDisplacedPoint: the `while True` rejection loop stops, returning nothing, when fewer than two draws remain, because a finite draw sequence stands in for an unbounded random source.
- FillGrid: the `while activeList` loop also ends when the draws run out. Termination of the source loop by a packing argument is not proved.
- Floating point is exact `real` arithmetic. Python's `int()` is modelled as truncation toward zero (`Trunc`), which differs from `Floor` only on negative arguments.
- FillGrid: requires X and Y not to be multiples of G (`Config.EdgesInsideGrid`). Otherwise a legal point with `x == X` or `y == Y` indexes one past the grid and Python raises `IndexError`. With the source constants (X = 100, Y = 1200, G = 17) this does not arise.
- FillGrid: requires `D <= 2X` and `D <= 2Y`, so that the seed point drawn from `[D/2, X - D/2]` lies in the raster.
- AddPointToGrid: requires the cell to lie in the grid. Python's negative-index wrap-around and `IndexError` are not modelled. `FindPointInGrid` has the same requirement and is never called in the source.
- DrawEdges: the colour it gives equals border-or-edge only when the cache agrees with the classifier on entry. `findClosestPointIndexOld` shares the cache and would store brute-force results in it. `Generate` establishes agreement for a fresh generator.
- Generate: the one-point clause can hold only for rasters with `max(X, Y)^2 < 3 min(X, Y)^2`, because FillGrid requires `D <= 2X` and `D <= 2Y`. The source's 100 by 1200 strip is not among them. For `D > 2X` the source draws the first x from `[X - D/2, D/2]`, which may lie outside the raster. That seed is not modelled. `SingleSeedPicture` still describes the picture for any indexed, spaced state with one point.
- SingleSeedClassify: requires `(X + Y)^2 < 1e30`, so that the argmin's starting bound of 1e30 exceeds every squared distance in the raster; with larger images a single seed could leave pixels at index -1.
- IsOnEdge: its result equals the edge predicate only under the same agreeing-cache condition as DrawEdges.
- FindClosestPointIndexOld: keeping the cache agreeing with the grid-based classifier is not stated, because its results may differ from that classifier's.
- DrawEdges: the final colours are stated, but not that each pixel is written exactly once.
- FindClosestPointIndex: global optimality is not claimed. The contract is the argmin over the first non-empty query, as the code computes it.
- Concurrency: none in the source; none modelled.
