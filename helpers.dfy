/**
  The shared grid helper (helpers/src/lib.rs): a grid parsed from text, stored row by row with the
  first input line as row 0, and the "readable" coordinates that the solvers use, in which (0, 0)
  is the bottom-left cell, x grows to the right and y grows upward.
*/
module Helpers {
  import opened Wrappers
  import opened Text

  /** A point in readable coordinates. */
  datatype Point2D = Point2D(x: int, y: int)

  /** `Point2D::new`. */
  function NewPoint(coords: (int, int)): Point2D {
    Point2D(coords.0, coords.1)
  }

  /** `impl Add for Point2D`. */
  function Add(a: Point2D, b: Point2D): Point2D {
    Point2D(a.x + b.x, a.y + b.y)
  }

  /** `impl Sub for Point2D`. */
  function Sub(a: Point2D, b: Point2D): Point2D {
    Point2D(a.x - b.x, a.y - b.y)
  }

  /** Adding back what was subtracted restores the point, and the other way round. */
  lemma AddSubInverse(a: Point2D, b: Point2D)
    ensures Add(Sub(b, a), a) == b
    ensures Sub(Add(b, a), a) == b
    ensures Add(a, b) == Add(b, a)
    ensures Sub(b, a) == Point2D(b.x - a.x, b.y - a.y) && Add(a, b) == Point2D(a.x + b.x, a.y + b.y)
  {
  }

  /** A grid of cells of type `T`, row 0 being the first input line. */
  datatype Grid<T> = Grid(rows: seq<seq<T>>) {

    /** Every row has the length of row 0. */
    predicate Rectangular() {
      forall i :: 0 <= i < |rows| ==> |rows[i]| == |rows[0]|
    }

    /** The grid has a row, and its first row has a cell (what `width()` insists on). */
    predicate NonEmpty() {
      |rows| > 0 && |rows[0]| > 0
    }

    /** `iter()`: the rows in storage order. */
    function Iter(): seq<seq<T>> {
      rows
    }

    /** `height()`: the number of rows; it panics on an empty grid. */
    function Height(): int
      requires |rows| > 0
    {
      |rows|
    }

    /** `width()`: the length of row 0; it panics on an empty grid or an empty first row. */
    function Width(): int
      requires NonEmpty()
    {
      |rows[0]|
    }

    /** `convert_coords_readable`: storage (row, column) to readable (x, y). */
    function ConvertCoordsReadable(coords: (int, int)): Point2D
      requires |rows| > 0
    {
      NewPoint((coords.1, Height() - 1 - coords.0))
    }

    /** `convert_coords_grid`: readable (x, y) back to storage (row, column). */
    function ConvertCoordsGrid(p: Point2D): (int, int)
      requires |rows| > 0
    {
      (Height() - 1 - p.y, p.x)
    }

    /** The storage cell that `access_grid(p)` indexes exists. */
    predicate Indexable(p: Point2D) {
      |rows| > 0 && 0 <= |rows| - 1 - p.y < |rows| && 0 <= p.x < |rows[|rows| - 1 - p.y]|
    }

    /** `access_grid`: the cell at a readable point; indexing off the grid panics. */
    function AccessGrid(p: Point2D): T
      requires Indexable(p)
    {
      var c := ConvertCoordsGrid(p);
      rows[c.0][c.1]
    }

    /**
      `in_bounds`. Rust's `&&` short-circuits, so `width()` is only reached when `x >= 0` and
      `height()` only when x is within the width: a negative x is out of bounds even on an
      empty grid.
    */
    function InBounds(p: Point2D): bool
      requires p.x >= 0 ==> NonEmpty()
    {
      p.x >= 0 && p.x < Width() && p.y >= 0 && p.y < Height()
    }

    /** `point_to_int`: the key `y * height() + x` that callers use in hash maps. */
    function PointToInt(p: Point2D): int
      requires |rows| > 0
    {
      p.y * Height() + p.x
    }

    /** `Grid::new`: one row per input line and one decoded cell per character; a character the decoder rejects panics. */
    static function New(input: string, parse: char -> Option<T>): (g: Grid<T>)
      requires ParsesAll(Lines(input), parse)
      ensures |g.rows| == |Lines(input)|
      ensures forall i :: 0 <= i < |g.rows| ==> |g.rows[i]| == |Lines(input)[i]|
      ensures forall i, j :: 0 <= i < |g.rows| && 0 <= j < |g.rows[i]| ==> parse(Lines(input)[i][j]) == Some(g.rows[i][j])
    {
      var ls := Lines(input);
      Grid(seq(|ls|, i requires 0 <= i < |ls| => seq(|ls[i]|, j requires 0 <= j < |ls[i]| => parse(ls[i][j]).value)))
    }
  }

  /** Every character of every line is accepted by the decoder. */
  predicate ParsesAll<T>(ls: seq<string>, parse: char -> Option<T>) {
    forall i, j :: 0 <= i < |ls| && 0 <= j < |ls[i]| ==> parse(ls[i][j]).Some?
  }

  /** The dimensions of a parsed grid are those of its text. */
  lemma NewDimensions<T>(input: string, parse: char -> Option<T>)
    requires ParsesAll(Lines(input), parse)
    requires |Lines(input)| > 0
    ensures Grid.New(input, parse).Height() == |Lines(input)|
    ensures |Lines(input)[0]| > 0 ==> Grid.New(input, parse).Width() == |Lines(input)[0]|
  {
  }

  /** The readable transform maps (r, c) to (c, height - 1 - r), and converting back restores (r, c). */
  lemma ConvertRoundTrip<T>(g: Grid<T>, r: int, c: int)
    requires |g.rows| > 0
    ensures g.ConvertCoordsReadable((r, c)) == Point2D(c, g.Height() - 1 - r)
    ensures g.ConvertCoordsGrid(g.ConvertCoordsReadable((r, c))) == (r, c)
  {
  }

  /** Converting a readable point to storage coordinates and back restores the point. */
  lemma ConvertRoundTripReadable<T>(g: Grid<T>, p: Point2D)
    requires |g.rows| > 0
    ensures var rc := g.ConvertCoordsGrid(p); g.ConvertCoordsReadable(rc) == p
  {
  }

  /** `in_bounds(p)` holds exactly when 0 <= x < width and 0 <= y < height. */
  lemma InBoundsIff<T>(g: Grid<T>, p: Point2D)
    requires g.NonEmpty()
    ensures g.InBounds(p) <==> 0 <= p.x < |g.rows[0]| && 0 <= p.y < |g.rows|
  {
  }

  /** On a rectangular grid every in-bounds point can be accessed. */
  lemma InBoundsIndexable<T>(g: Grid<T>, p: Point2D)
    requires g.NonEmpty() && g.Rectangular()
    requires g.InBounds(p)
    ensures g.Indexable(p)
  {
  }

  /** Accessing the readable form of a storage cell reads that cell. */
  lemma AccessReadable<T>(g: Grid<T>, r: int, c: int)
    requires 0 <= r < |g.rows| && 0 <= c < |g.rows[r]|
    ensures g.Indexable(g.ConvertCoordsReadable((r, c)))
    ensures g.AccessGrid(g.ConvertCoordsReadable((r, c))) == g.rows[r][c]
  {
  }

  /**
    On a rectangular grid, the cells met by walking `iter()` and converting each (row, column)
    are exactly the in-bounds readable points, each holding the value met.
  */
  lemma IterMatchesReadable<T>(g: Grid<T>, p: Point2D)
    requires g.NonEmpty() && g.Rectangular()
    ensures g.InBounds(p) <==>
      exists r, c :: 0 <= r < |g.Iter()| && 0 <= c < |g.Iter()[r]| && g.ConvertCoordsReadable((r, c)) == p
    ensures g.InBounds(p) ==>
      var rc := g.ConvertCoordsGrid(p); g.Iter()[rc.0][rc.1] == g.AccessGrid(p)
  {
    if g.InBounds(p) {
      var rc := g.ConvertCoordsGrid(p);
      assert g.ConvertCoordsReadable(rc) == p;
    }
  }

  /** When the grid is no wider than it is tall, `point_to_int` tells in-bounds points apart. */
  lemma PointToIntInjective<T>(g: Grid<T>, p: Point2D, q: Point2D)
    requires g.NonEmpty() && g.Width() <= g.Height()
    requires g.InBounds(p) && g.InBounds(q)
    requires g.PointToInt(p) == g.PointToInt(q)
    ensures p == q
  {
    var h := g.Height();
    if p.y < q.y {
      KeyOrder(p, q, h);
    } else if q.y < p.y {
      KeyOrder(q, p, h);
    }
  }

  lemma KeyOrder(p: Point2D, q: Point2D, h: int)
    requires 0 <= p.x < h && 0 <= q.x && p.y < q.y
    ensures p.y * h + p.x < q.y * h + q.x
  {
    assert (q.y - p.y) * h >= h by {
      assert q.y - p.y >= 1;
    }
    assert q.y * h - p.y * h == (q.y - p.y) * h;
  }

  /** On a grid one row high every in-bounds key is just `x`, so `point_to_int` tells in-bounds points apart whatever the width. */
  lemma PointToIntOneRow<T>(g: Grid<T>, p: Point2D, q: Point2D)
    requires g.NonEmpty() && g.Height() == 1
    requires g.InBounds(p) && g.InBounds(q)
    ensures g.PointToInt(p) == p.x
    ensures g.PointToInt(p) == g.PointToInt(q) ==> p == q
  {
  }

  /** When the grid is wider than it is tall (and at least two rows high), two in-bounds points share a key. */
  lemma PointToIntCollides<T>(g: Grid<T>)
    requires g.NonEmpty() && 2 <= g.Height() < g.Width()
    ensures var p, q := Point2D(g.Height(), 0), Point2D(0, 1);
      p != q && g.InBounds(p) && g.InBounds(q) && g.PointToInt(p) == g.PointToInt(q)
  {
  }
}
