/**
  Day 10 library (p10/src/lib.rs): a map of heights 0 to 9. From every 9 the solver walks down
  through neighbours exactly one lower, adding one to a score kept per `point_to_int` key each
  time a cell is reached; part one sums the scores of the 0 cells. Points are in the readable
  coordinates of the grid helper.
*/
module P10 {
  import opened Wrappers
  import opened Text
  import opened Helpers
  import opened Seqs

  datatype Direction = Up | Down | Left | Right

  /** The directions `step_and_branch` tries, in its order. */
  const Dirs: seq<Direction> := [Up, Down, Left, Right]

  /** `parse::<i32>` of a one-character string: a digit gives its value, anything else fails. */
  function HeightCell(c: char): Option<int> {
    ParseInt([c])
  }

  lemma HeightCellDigit(c: char)
    ensures HeightCell(c).Some? <==> IsDigit(c)
    ensures IsDigit(c) ==> HeightCell(c) == Some(DigitValue(c))
  {
    if IsDigit(c) {
      assert AllDigits([c]);
      assert DigitsValue([c]) == DigitValue(c) by {
        assert [c][..0] == [];
      }
    }
  }

  /** The offset `can_step` adds for each direction: one cell up, down, left or right. */
  function Offset(d: Direction): (o: Point2D)
    ensures (o.x == 0) != (o.y == 0) && -1 <= o.x <= 1 && -1 <= o.y <= 1
  {
    match d
    case Up => NewPoint((0, 1))
    case Right => NewPoint((1, 0))
    case Left => NewPoint((-1, 0))
    case Down => NewPoint((0, -1))
  }

  /** The four offsets are the four distinct unit moves. */
  lemma OffsetsDistinct(d: Direction, e: Direction)
    ensures Offset(d) == Offset(e) <==> d == e
  {
  }

  /** Every row is as long as the grid is tall. */
  predicate Square(g: Grid<int>) {
    forall r :: 0 <= r < |g.rows| ==> |g.rows[r]| == |g.rows|
  }

  predicate NonNegative(g: Grid<int>) {
    forall r, c :: 0 <= r < |g.rows| && 0 <= c < |g.rows[r]| ==> g.rows[r][c] >= 0
  }

  /** On a square grid a point is on the grid exactly when it can be accessed. */
  lemma SquareInBounds(g: Grid<int>, p: Point2D)
    requires Square(g)
    ensures g.Indexable(p) ==> g.NonEmpty() && g.InBounds(p)
    ensures g.NonEmpty() && g.InBounds(p) ==> g.Indexable(p)
  {
  }

  /**
    `can_step`: the neighbour in direction `d` when it is on the grid and exactly one lower,
    otherwise the error the source returns.
  */
  function CanStep(g: Grid<int>, p: Point2D, d: Direction): (r: Result<Point2D, string>)
    requires Square(g) && g.Indexable(p)
    ensures r.Ok? <==> g.Indexable(Add(p, Offset(d))) && g.AccessGrid(Add(p, Offset(d))) == g.AccessGrid(p) - 1
    ensures r.Ok? ==> r.value == Add(p, Offset(d))
    ensures r.Err? ==> (r.error == "Next point out of bounds" <==> !g.Indexable(Add(p, Offset(d))))
  {
    var nextPos := Add(p, Offset(d));
    SquareInBounds(g, p);
    SquareInBounds(g, nextPos);
    if !g.InBounds(nextPos) then Err("Next point out of bounds")
    else
      var curHeight := g.AccessGrid(p);
      if g.AccessGrid(nextPos) != curHeight - 1 then Err("Next pos is too low")
      else Ok(nextPos)
  }

  /** A step lands on the grid, one lower, and so never below zero on a map of heights. */
  lemma CanStepDescends(g: Grid<int>, p: Point2D, d: Direction)
    requires Square(g) && NonNegative(g) && g.Indexable(p)
    requires CanStep(g, p, d).Ok?
    ensures var n := CanStep(g, p, d).value;
      g.Indexable(n) && 0 <= g.AccessGrid(n) == g.AccessGrid(p) - 1
  {
  }

  /** Every cell of a parsed map is a digit, so no height is negative. */
  lemma ParsedHeights(input: string)
    requires ParsesAll(Lines(input), HeightCell)
    ensures NonNegative(Grid.New(input, HeightCell))
  {
    var g := Grid.New(input, HeightCell);
    forall r, c | 0 <= r < |g.rows| && 0 <= c < |g.rows[r]| ensures g.rows[r][c] >= 0 {
      HeightCellDigit(Lines(input)[r][c]);
    }
  }

  /** The map of heights a walk runs on: square (what `new` needs), with no negative height. */
  predicate Walkable(g: Grid<int>) {
    Square(g) && NonNegative(g)
  }

  function Get(s: map<int, int>, k: int): int {
    if k in s then s[k] else 0
  }

  /** `*scores.entry(k).or_insert(0) += 1`: the count at `k` goes up by one and nothing else changes. */
  function Bump(s: map<int, int>, k: int): (r: map<int, int>)
    ensures r.Keys == s.Keys + {k}
    ensures Get(r, k) == Get(s, k) + 1
    ensures forall j :: j != k ==> Get(r, j) == Get(s, j)
  {
    s[k := Get(s, k) + 1]
  }

  /** The scores after `step_and_branch(p)`: count `p`, then branch in each direction in turn. */
  function Branch(g: Grid<int>, s: map<int, int>, p: Point2D): map<int, int>
    requires Walkable(g) && g.Indexable(p)
    decreases g.AccessGrid(p), 1, 0
  {
    BranchDirs(g, Bump(s, g.PointToInt(p)), p, Dirs)
  }

  function BranchDirs(g: Grid<int>, s: map<int, int>, p: Point2D, ds: seq<Direction>): map<int, int>
    requires Walkable(g) && g.Indexable(p)
    decreases g.AccessGrid(p), 0, |ds|
  {
    if ds == [] then s
    else
      var s' := match CanStep(g, p, ds[0])
        case Ok(n) => (CanStepDescends(g, p, ds[0]); Branch(g, s, n))
        case Err(_) => s;
      BranchDirs(g, s', p, ds[1..])
  }

  /**
    The reference count: the number of walks from `p` to `q` that step each time to a
    neighbour exactly one lower (the walk that stays at `p` when `q == p` included).
  */
  function Paths(g: Grid<int>, p: Point2D, q: Point2D): nat
    requires Walkable(g) && g.Indexable(p)
    decreases g.AccessGrid(p), 1, 0
  {
    (if p == q then 1 else 0) + PathsDirs(g, p, q, Dirs)
  }

  function PathsDirs(g: Grid<int>, p: Point2D, q: Point2D, ds: seq<Direction>): nat
    requires Walkable(g) && g.Indexable(p)
    decreases g.AccessGrid(p), 0, |ds|
  {
    if ds == [] then 0
    else
      (match CanStep(g, p, ds[0])
        case Ok(n) => (CanStepDescends(g, p, ds[0]); Paths(g, n, q))
        case Err(_) => 0)
      + PathsDirs(g, p, q, ds[1..])
  }

  /** A walk only goes down: it ends on the grid, no higher than it started, and only a walk of no steps keeps its height. */
  lemma {:induction false} PathsDescend(g: Grid<int>, p: Point2D, q: Point2D)
    requires Walkable(g) && g.Indexable(p)
    ensures Paths(g, p, q) > 0 ==> g.Indexable(q) && g.AccessGrid(q) <= g.AccessGrid(p)
    ensures p != q && Paths(g, p, q) > 0 ==> g.AccessGrid(q) < g.AccessGrid(p)
    ensures Paths(g, p, p) == 1
    decreases g.AccessGrid(p), 1, 0
  {
    PathsDirsDescend(g, p, q, Dirs);
    PathsDirsDescend(g, p, p, Dirs);
  }

  lemma {:induction false} PathsDirsDescend(g: Grid<int>, p: Point2D, q: Point2D, ds: seq<Direction>)
    requires Walkable(g) && g.Indexable(p)
    ensures PathsDirs(g, p, q, ds) > 0 ==> g.Indexable(q) && g.AccessGrid(q) < g.AccessGrid(p)
    decreases g.AccessGrid(p), 0, |ds|
  {
    if ds != [] {
      PathsDirsDescend(g, p, q, ds[1..]);
      match CanStep(g, p, ds[0])
      case Ok(n) =>
        CanStepDescends(g, p, ds[0]);
        PathsDescend(g, n, q);
      case Err(_) =>
    }
  }

  /**
    After `step_and_branch(p)` the score of the key of an on-grid point `q` has grown by the
    number of walks from `p` to `q`, and the key is present exactly when it was before or such a
    walk exists. On a square grid `point_to_int` tells on-grid points apart, so no two points
    share a score.
  */
  lemma {:induction false} BranchCounts(g: Grid<int>, s: map<int, int>, p: Point2D, q: Point2D)
    requires Walkable(g) && g.Indexable(p) && g.Indexable(q)
    ensures var k, r := g.PointToInt(q), Branch(g, s, p);
      Get(r, k) == Get(s, k) + Paths(g, p, q) && (k in r <==> k in s || Paths(g, p, q) > 0)
    decreases g.AccessGrid(p), 1, 0
  {
    SquareInBounds(g, p);
    SquareInBounds(g, q);
    if g.PointToInt(p) == g.PointToInt(q) {
      PointToIntInjective(g, p, q);
    }
    BranchDirsCounts(g, Bump(s, g.PointToInt(p)), p, q, Dirs);
  }

  lemma {:induction false} BranchDirsCounts(g: Grid<int>, s: map<int, int>, p: Point2D, q: Point2D, ds: seq<Direction>)
    requires Walkable(g) && g.Indexable(p) && g.Indexable(q)
    ensures var k, r := g.PointToInt(q), BranchDirs(g, s, p, ds);
      Get(r, k) == Get(s, k) + PathsDirs(g, p, q, ds) && (k in r <==> k in s || PathsDirs(g, p, q, ds) > 0)
    decreases g.AccessGrid(p), 0, |ds|
  {
    if ds != [] {
      match CanStep(g, p, ds[0])
      case Ok(n) =>
        CanStepDescends(g, p, ds[0]);
        BranchCounts(g, s, n, q);
        BranchDirsCounts(g, Branch(g, s, n), p, q, ds[1..]);
      case Err(_) =>
        BranchDirsCounts(g, s, p, q, ds[1..]);
    }
  }

  /** A key that belongs to no on-grid point is left as it was: the walk only ever counts on-grid points. */
  lemma {:induction false} BranchOtherKeys(g: Grid<int>, s: map<int, int>, p: Point2D, k: int)
    requires Walkable(g) && g.Indexable(p)
    requires forall q :: g.Indexable(q) ==> g.PointToInt(q) != k
    ensures Get(Branch(g, s, p), k) == Get(s, k) && (k in Branch(g, s, p) <==> k in s)
    decreases g.AccessGrid(p), 1, 0
  {
    BranchDirsOtherKeys(g, Bump(s, g.PointToInt(p)), p, k, Dirs);
  }

  lemma {:induction false} BranchDirsOtherKeys(g: Grid<int>, s: map<int, int>, p: Point2D, k: int, ds: seq<Direction>)
    requires Walkable(g) && g.Indexable(p)
    requires forall q :: g.Indexable(q) ==> g.PointToInt(q) != k
    ensures Get(BranchDirs(g, s, p, ds), k) == Get(s, k) && (k in BranchDirs(g, s, p, ds) <==> k in s)
    decreases g.AccessGrid(p), 0, |ds|
  {
    if ds != [] {
      match CanStep(g, p, ds[0])
      case Ok(n) =>
        CanStepDescends(g, p, ds[0]);
        BranchOtherKeys(g, s, n, k);
        BranchDirsOtherKeys(g, Branch(g, s, n), p, k, ds[1..]);
      case Err(_) =>
        BranchDirsOtherKeys(g, s, p, k, ds[1..]);
    }
  }

  /** The scores after `assign_scores`: one walk from each end point, in order. */
  function BranchAll(g: Grid<int>, s: map<int, int>, ends: seq<Point2D>): map<int, int>
    requires Walkable(g) && forall e :: e in ends ==> g.Indexable(e)
    decreases |ends|
  {
    if ends == [] then s
    else
      var n := |ends| - 1;
      Branch(g, BranchAll(g, s, ends[..n]), ends[n])
  }

  /** The number of descending walks from any of `ends` to `q`. */
  function SumPaths(g: Grid<int>, ends: seq<Point2D>, q: Point2D): nat
    requires Walkable(g) && forall e :: e in ends ==> g.Indexable(e)
    decreases |ends|
  {
    if ends == [] then 0
    else
      var n := |ends| - 1;
      SumPaths(g, ends[..n], q) + Paths(g, ends[n], q)
  }

  /** After walking from every end point, the score of an on-grid point is the number of descending walks reaching it from any of them. */
  lemma {:induction false} BranchAllCounts(g: Grid<int>, s: map<int, int>, ends: seq<Point2D>, q: Point2D)
    requires Walkable(g) && (forall e :: e in ends ==> g.Indexable(e)) && g.Indexable(q)
    ensures var k, r := g.PointToInt(q), BranchAll(g, s, ends);
      Get(r, k) == Get(s, k) + SumPaths(g, ends, q) && (k in r <==> k in s || SumPaths(g, ends, q) > 0)
    decreases |ends|
  {
    if ends != [] {
      var n := |ends| - 1;
      assert forall e :: e in ends[..n] ==> e in ends;
      BranchAllCounts(g, s, ends[..n], q);
      BranchCounts(g, BranchAll(g, s, ends[..n]), ends[n], q);
    }
  }

  /** Some end point has a walk to `q` exactly when the walks from all of them add up to more than none. */
  lemma {:induction false} SumPathsPositive(g: Grid<int>, ends: seq<Point2D>, q: Point2D)
    requires Walkable(g) && forall e :: e in ends ==> g.Indexable(e)
    ensures SumPaths(g, ends, q) > 0 <==> exists e :: e in ends && Paths(g, e, q) > 0
    decreases |ends|
  {
    if ends != [] {
      var n := |ends| - 1;
      assert forall e :: e in ends[..n] ==> e in ends;
      assert forall e :: e in ends ==> e in ends[..n] || e == ends[n] by {
        assert ends == ends[..n] + [ends[n]];
      }
      SumPathsPositive(g, ends[..n], q);
      if SumPaths(g, ends, q) > 0 && Paths(g, ends[n], q) == 0 {
        var e :| e in ends[..n] && Paths(g, e, q) > 0;
        assert e in ends;
      }
    }
  }

  /** The readable points whose cells `new` visits, for the first `i` entries of row `j`, in order, when the cell holds `v`. */
  function ColumnScan(g: Grid<int>, v: int, j: int, i: int): seq<Point2D>
    requires TransposeIndexable(g) && 0 <= j < |g.rows| && 0 <= i <= |g.rows[j]|
    decreases i
  {
    if i == 0 then []
    else
      ScanPoint(g, j, i - 1);
      var point := g.ConvertCoordsReadable((i - 1, j));
      ColumnScan(g, v, j, i - 1) + (if g.AccessGrid(point) == v then [point] else [])
  }

  /** The points `new` collects for the value `v` from the first `j` rows. */
  function ScanUpTo(g: Grid<int>, v: int, j: int): seq<Point2D>
    requires TransposeIndexable(g) && 0 <= j <= |g.rows|
    decreases j
  {
    if j == 0 then [] else ScanUpTo(g, v, j - 1) + ColumnScan(g, v, j - 1, |g.rows[j - 1]|)
  }

  function Scan(g: Grid<int>, v: int): (r: seq<Point2D>)
    requires TransposeIndexable(g)
    ensures forall p :: p in r ==> g.Indexable(p) && g.AccessGrid(p) == v
  {
    ScanUpToIn(g, v, |g.rows|);
    ScanUpTo(g, v, |g.rows|)
  }

  /**
    `new` enumerates row `j` and column `i` but converts `(i, j)`, so it reads `grid[i][j]`:
    every such cell must exist, or `access_grid` panics.
  */
  predicate TransposeIndexable(g: Grid<int>) {
    forall r, c :: 0 <= r < |g.rows| && 0 <= c < |g.rows[r]| ==> c < |g.rows| && r < |g.rows[c]|
  }

  /** For grids with a cell in the first row and no row shorter than the first, `new` succeeds exactly on square ones. */
  lemma TransposeSquare(g: Grid<int>)
    requires g.NonEmpty()
    requires forall r :: 0 <= r < |g.rows| ==> |g.rows[r]| >= |g.rows[0]|
    ensures TransposeIndexable(g) <==> Square(g)
  {
    if TransposeIndexable(g) {
      forall r | 0 <= r < |g.rows| ensures |g.rows[r]| == |g.rows| {
        Transposed(g, |g.rows| - 1, 0);
        if |g.rows[r]| > |g.rows| {
          Transposed(g, r, |g.rows|);
        }
      }
    }
  }

  /** The point `new` builds for entry `i` of row `j` reads cell `grid[i][j]`, and it is that cell's readable point. */
  lemma Transposed(g: Grid<int>, r: int, c: int)
    requires TransposeIndexable(g) && 0 <= r < |g.rows| && 0 <= c < |g.rows[r]|
    ensures c < |g.rows| && r < |g.rows[c]|
  {
  }

  lemma ScanPoint(g: Grid<int>, j: int, i: int)
    requires TransposeIndexable(g) && 0 <= j < |g.rows| && 0 <= i < |g.rows[j]|
    ensures var point := g.ConvertCoordsReadable((i, j));
      g.Indexable(point) && g.AccessGrid(point) == g.rows[i][j] && point == Point2D(j, |g.rows| - 1 - i)
  {
    Transposed(g, j, i);
  }

  lemma {:induction false} ColumnScanIn(g: Grid<int>, v: int, j: int, i: int)
    requires TransposeIndexable(g) && 0 <= j < |g.rows| && 0 <= i <= |g.rows[j]|
    ensures forall p :: p in ColumnScan(g, v, j, i) <==>
      p.x == j && |g.rows| - i <= p.y < |g.rows| && g.Indexable(p) && g.AccessGrid(p) == v
    decreases i
  {
    if i > 0 {
      ColumnScanIn(g, v, j, i - 1);
      ScanPoint(g, j, i - 1);
      var point := g.ConvertCoordsReadable((i - 1, j));
      var prev := ColumnScan(g, v, j, i - 1);
      if g.AccessGrid(point) == v {
        assert ColumnScan(g, v, j, i) == prev + [point];
      } else {
        assert ColumnScan(g, v, j, i) == prev;
      }
    }
  }

  /** Each cell of column `j` is met once, so the points collected are distinct. */
  lemma {:induction false} ColumnScanDistinct(g: Grid<int>, v: int, j: int, i: int)
    requires TransposeIndexable(g) && 0 <= j < |g.rows| && 0 <= i <= |g.rows[j]|
    ensures NoDups(ColumnScan(g, v, j, i))
    decreases i
  {
    if i > 0 {
      ColumnScanDistinct(g, v, j, i - 1);
      ScanPoint(g, j, i - 1);
      var point := g.ConvertCoordsReadable((i - 1, j));
      var prev := ColumnScan(g, v, j, i - 1);
      if g.AccessGrid(point) == v {
        ColumnScanIn(g, v, j, i - 1);
        assert point !in prev;
        NoDupsAppend(prev, [point]);
      }
    }
  }

  lemma {:induction false} ScanUpToIn(g: Grid<int>, v: int, j: int)
    requires TransposeIndexable(g) && 0 <= j <= |g.rows|
    ensures forall p :: p in ScanUpTo(g, v, j) <==> 0 <= p.x < j && g.Indexable(p) && g.AccessGrid(p) == v
    ensures NoDups(ScanUpTo(g, v, j))
    decreases j
  {
    if j > 0 {
      ScanUpToIn(g, v, j - 1);
      var column := ColumnScan(g, v, j - 1, |g.rows[j - 1]|);
      ColumnScanIn(g, v, j - 1, |g.rows[j - 1]|);
      ColumnScanDistinct(g, v, j - 1, |g.rows[j - 1]|);
      NoDupsAppend(ScanUpTo(g, v, j - 1), column);
      forall p: Point2D | p.x == j - 1 && g.Indexable(p) && g.AccessGrid(p) == v ensures p in column {
        var i := |g.rows| - 1 - p.y;
        assert i < |g.rows[j - 1]|;
      }
    }
  }

  /** `new` lists every point holding `v` exactly once, despite the swapped coordinate order, and nothing else. */
  lemma ScanMeaning(g: Grid<int>, v: int, p: Point2D)
    requires TransposeIndexable(g)
    ensures p in Scan(g, v) <==> g.Indexable(p) && g.AccessGrid(p) == v
    ensures NoDups(Scan(g, v))
  {
    ScanUpToIn(g, v, |g.rows|);
    if g.Indexable(p) {
      var i := |g.rows| - 1 - p.y;
      Transposed(g, i, p.x);
    }
  }

  /** The sum `collect_scores` forms over the start points; each must have a score, or it panics. */
  function SumScores(g: Grid<int>, s: map<int, int>, starts: seq<Point2D>): int
    requires forall z :: z in starts ==> g.Indexable(z) && g.PointToInt(z) in s
    decreases |starts|
  {
    if starts == [] then 0
    else
      var n := |starts| - 1;
      assert starts[n] in starts && g.Indexable(starts[n]);
      assert |g.rows| > 0;
      SumScores(g, s, starts[..n]) + s[g.PointToInt(starts[n])]
  }

  /** For each start point, the descending walks reaching it from the end points: the rating of the map. */
  function TrailCount(g: Grid<int>, starts: seq<Point2D>, ends: seq<Point2D>): nat
    requires Walkable(g) && (forall e :: e in ends ==> g.Indexable(e)) && (forall z :: z in starts ==> g.Indexable(z))
    decreases |starts|
  {
    if starts == [] then 0
    else
      var n := |starts| - 1;
      TrailCount(g, starts[..n], ends) + SumPaths(g, ends, starts[n])
  }

  /** starting from no scores, `collect_scores` after `assign_scores` counts the descending walks from the ends to the starts. */
  lemma {:induction false} SumScoresCountsTrails(g: Grid<int>, starts: seq<Point2D>, ends: seq<Point2D>)
    requires Walkable(g) && forall e :: e in ends ==> g.Indexable(e)
    requires forall z :: z in starts ==> g.Indexable(z) && g.PointToInt(z) in BranchAll(g, map[], ends)
    ensures SumScores(g, BranchAll(g, map[], ends), starts) == TrailCount(g, starts, ends)
    decreases |starts|
  {
    if starts != [] {
      var n := |starts| - 1;
      assert forall z :: z in starts[..n] ==> z in starts;
      SumScoresCountsTrails(g, starts[..n], ends);
      BranchAllCounts(g, map[], ends, starts[n]);
    }
  }

  /** Every start point of the map is reached by a descending walk from some end point. */
  predicate Reached(g: Grid<int>, starts: seq<Point2D>, ends: seq<Point2D>)
    requires Walkable(g) && forall e :: e in ends ==> g.Indexable(e)
  {
    forall z :: z in starts ==> exists e :: e in ends && Paths(g, e, z) > 0
  }

  /** `collect_scores` finds a score for every start point exactly when each is reached from some end point. */
  lemma ScoresDefined(g: Grid<int>, starts: seq<Point2D>, ends: seq<Point2D>)
    requires Walkable(g) && (forall e :: e in ends ==> g.Indexable(e)) && (forall z :: z in starts ==> g.Indexable(z))
    ensures (forall z :: z in starts ==> g.Indexable(z) && g.PointToInt(z) in BranchAll(g, map[], ends)) <==> Reached(g, starts, ends)
  {
    forall z | z in starts
      ensures g.PointToInt(z) in BranchAll(g, map[], ends) <==> exists e :: e in ends && Paths(g, e, z) > 0
    {
      BranchAllCounts(g, map[], ends, z);
      SumPathsPositive(g, ends, z);
    }
  }

  /** The row loop of `ReindeerMap::new`: the 0 cells and the 9 cells of the whole grid. */
  method ScanGrid(g: Grid<int>) returns (starts: seq<Point2D>, ends: seq<Point2D>)
    requires TransposeIndexable(g)
    ensures starts == Scan(g, 0) && ends == Scan(g, 9)
  {
    starts, ends := [], [];
    var rows := g.Iter();
    for j := 0 to |rows|
      invariant starts == ScanUpTo(g, 0, j) && ends == ScanUpTo(g, 9, j)
    {
      var lineStarts, lineEnds := ScanLine(g, j);
      starts := starts + lineStarts;
      ends := ends + lineEnds;
    }
  }

  /** The inner loop of `new` over row `j`: the points met whose cell holds 0, and those whose cell holds 9. */
  method ScanLine(g: Grid<int>, j: int) returns (starts: seq<Point2D>, ends: seq<Point2D>)
    requires TransposeIndexable(g) && 0 <= j < |g.rows|
    ensures starts == ColumnScan(g, 0, j, |g.rows[j]|) && ends == ColumnScan(g, 9, j, |g.rows[j]|)
  {
    starts, ends := [], [];
    var line := g.Iter()[j];
    for i := 0 to |line|
      invariant starts == ColumnScan(g, 0, j, i) && ends == ColumnScan(g, 9, j, i)
    {
      ScanPoint(g, j, i);
      var point := g.ConvertCoordsReadable((i, j));
      if g.AccessGrid(point) == 0 {
        starts := starts + [point];
      } else if g.AccessGrid(point) == 9 {
        ends := ends + [point];
      }
    }
  }

  /** The reindeer map: heights, the 0 and 9 cells, and the score of each key reached. */
  class ReindeerMap {
    var grid: Grid<int>
    var startPoints: seq<Point2D>
    var endPoints: seq<Point2D>
    var scores: map<int, int>

    /** `ReindeerMap::new`: parse the heights and list the 0 cells and the 9 cells, walking the grid as the source does. */
    constructor New(input: string)
      requires ParsesAll(Lines(input), HeightCell)
      requires TransposeIndexable(Grid.New(input, HeightCell))
      ensures grid == Grid.New(input, HeightCell)
      ensures startPoints == Scan(grid, 0) && endPoints == Scan(grid, 9)
      ensures scores == map[]
    {
      var g := Grid.New(input, HeightCell);
      var starts, ends := ScanGrid(g);
      grid := g;
      startPoints := starts;
      endPoints := ends;
      scores := map[];
    }

    /**
      `step_and_branch`: count `position`, then walk on from every neighbour one lower. The
      `filter_map` the source applies to the directions when `start` holds is never consumed, so
      all four directions are tried whatever `from` and `start` are.
    */
    method StepAndBranch(position: Point2D, from: Direction, start: bool)
      requires Walkable(grid) && grid.Indexable(position)
      modifies this
      ensures grid == old(grid) && startPoints == old(startPoints) && endPoints == old(endPoints)
      ensures scores == Branch(grid, old(scores), position)
      decreases grid.AccessGrid(position), 1, 0
    {
      var key := grid.PointToInt(position);
      scores := scores[key := (if key in scores then scores[key] else 0) + 1];
      var dirs := [Up, Down, Left, Right];
      assert scores == Bump(old(scores), key) && dirs[0..] == Dirs;
      for k := 0 to |dirs|
        invariant grid == old(grid) && startPoints == old(startPoints) && endPoints == old(endPoints)
        invariant BranchDirs(grid, scores, position, dirs[k..]) == Branch(grid, old(scores), position)
      {
        var dir := dirs[k];
        assert dirs[k..][1..] == dirs[k + 1..];
        match CanStep(grid, position, dir)
        case Ok(nextPos) =>
          CanStepDescends(grid, position, dir);
          StepAndBranch(nextPos, dir, false);
        case Err(_) =>
      }
    }

    /** `assign_scores`: one walk from every end point. */
    method AssignScores()
      requires Walkable(grid) && forall e :: e in endPoints ==> grid.Indexable(e)
      modifies this
      ensures grid == old(grid) && startPoints == old(startPoints) && endPoints == old(endPoints)
      ensures scores == BranchAll(grid, old(scores), endPoints)
    {
      var nines := endPoints;
      for k := 0 to |nines|
        invariant grid == old(grid) && startPoints == old(startPoints) && endPoints == old(endPoints)
        invariant scores == BranchAll(grid, old(scores), nines[..k])
      {
        assert nines[..k + 1][..k] == nines[..k];
        StepAndBranch(nines[k], Up, true);
      }
      assert nines[..|nines|] == nines;
    }

    /** `collect_scores`: the sum of the scores of the start points; a start point without a score panics. */
    method CollectScores() returns (result: int)
      requires forall z :: z in startPoints ==> grid.Indexable(z) && grid.PointToInt(z) in scores
      ensures result == SumScores(grid, scores, startPoints)
    {
      result := 0;
      for k := 0 to |startPoints|
        invariant result == SumScores(grid, scores, startPoints[..k])
      {
        assert startPoints[..k + 1][..k] == startPoints[..k];
        assert startPoints[k] in startPoints;
        var id := grid.PointToInt(startPoints[k]);
        result := result + scores[id];
      }
      assert startPoints[..|startPoints|] == startPoints;
    }
  }

  /**
    `solution_one`: on a square map of digits where every 0 is reached from some 9, the sum
    over the 0 cells of the number of descending walks from the 9 cells to it.
  */
  method SolutionOne(input: string) returns (result: int)
    requires ParsesAll(Lines(input), HeightCell)
    requires Square(Grid.New(input, HeightCell))
    requires var g := Grid.New(input, HeightCell);
      (ParsedHeights(input); Reached(g, Scan(g, 0), Scan(g, 9)))
    ensures var g := Grid.New(input, HeightCell); result == TrailCount(g, Scan(g, 0), Scan(g, 9))
  {
    var g := Grid.New(input, HeightCell);
    ParsedHeights(input);
    var map10 := new ReindeerMap.New(input);
    map10.AssignScores();
    ScoresDefined(g, Scan(g, 0), Scan(g, 9));
    result := map10.CollectScores();
    SumScoresCountsTrails(g, Scan(g, 0), Scan(g, 9));
  }
}
