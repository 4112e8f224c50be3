/**
  Day 4 library (p4/src/lib.rs): a word search over lines of text. A cell is addressed as
  `(x, y)`: column `x` of line `y`, line 0 first.
*/
module P4 {

  type Pos = (int, int)

  /** `rotate_dir`: a quarter turn, `(a, b)` to `(b, -a)`. */
  function RotateDir(dir: Pos): Pos {
    (dir.1, -dir.0)
  }

  /** A quarter turn is perpendicular to the direction it turns and keeps its length. */
  lemma RotatePerpendicular(dir: Pos)
    ensures var r := RotateDir(dir); r.0 * dir.0 + r.1 * dir.1 == 0
    ensures var r := RotateDir(dir); r.0 * r.0 + r.1 * r.1 == dir.0 * dir.0 + dir.1 * dir.1
  {
    var r := RotateDir(dir);
    assert r.0 * dir.0 == dir.1 * dir.0;
    assert r.1 * r.1 == dir.0 * dir.0;
  }

  /** `dir` turned `k` quarter turns. */
  function RotN(dir: Pos, k: nat): Pos {
    if k == 0 then dir else RotateDir(RotN(dir, k - 1))
  }

  /** Two quarter turns reverse a direction, and four turns bring it back. */
  lemma RotateFour(dir: Pos)
    ensures RotateDir(RotateDir(dir)) == (-dir.0, -dir.1)
    ensures RotateDir(RotateDir(RotateDir(RotateDir(dir)))) == dir
  {
  }

  /** `RotN` with a fixed count spelled out as nested quarter turns. */
  lemma RotNNested(dir: Pos)
    ensures RotN(dir, 2) == RotateDir(RotateDir(dir))
    ensures RotN(dir, 4) == RotateDir(RotateDir(RotateDir(RotateDir(dir))))
  {
    assert RotN(dir, 1) == RotateDir(dir);
    assert RotN(dir, 3) == RotateDir(RotN(dir, 2));
  }

  /** Turning four times, as the rotation loop of `find_x_mas` can, restores the direction. */
  lemma RotNFour(dir: Pos)
    ensures RotN(dir, 4) == dir
  {
    RotNNested(dir);
    RotateFour(dir);
  }

  /** The eight directions `search_xmas` tries. */
  const XmasDirections: seq<Pos> := [(0, 1), (1, 1), (1, 0), (1, -1), (0, -1), (-1, -1), (-1, 0), (-1, 1)]

  /** The four diagonals `search_x_mas` tries. */
  const CrossDirections: seq<Pos> := [(1, 1), (1, -1), (-1, -1), (-1, 1)]

  /** The diagonals are the successive quarter turns of `(1, 1)`. */
  lemma CrossDirectionsRotate()
    ensures forall k :: 0 <= k < 4 ==> CrossDirections[k] == RotN((1, 1), k)
  {
    assert RotN((1, 1), 1) == (1, -1);
    assert RotN((1, 1), 2) == (-1, -1);
    assert RotN((1, 1), 3) == (-1, 1);
  }

  /** The eight directions are the king moves: every nonzero step of at most 1 along each axis, once. */
  lemma XmasDirectionsAreKingMoves(d: Pos)
    ensures d in XmasDirections <==> d != (0, 0) && -1 <= d.0 <= 1 && -1 <= d.1 <= 1
  {
  }

  /** Every line is at least as long as the first, so any cell within the first line's width can be read. */
  predicate RowsCoverWidth(grid: seq<string>) {
    forall r :: 0 <= r < |grid| ==> |grid[0]| <= |grid[r]|
  }

  /** Inside the bounds that `find_xmas` and `find_x_mas` check: the width of line 0 and the number of lines. */
  predicate InGrid(grid: seq<string>, p: Pos) {
    |grid| > 0 && 0 <= p.0 < |grid[0]| && 0 <= p.1 < |grid|
  }

  function At(grid: seq<string>, p: Pos): char
    requires InGrid(grid, p) && RowsCoverWidth(grid)
  {
    grid[p.1][p.0]
  }

  /** The cell `k` steps from `start` along `dir`. */
  function Walk(start: Pos, dir: Pos, k: int): Pos {
    (start.0 + k * dir.0, start.1 + k * dir.1)
  }

  lemma WalkStep(start: Pos, dir: Pos, k: int)
    ensures Walk(start, dir, k + 1) == (Walk(start, dir, k).0 + dir.0, Walk(start, dir, k).1 + dir.1)
  {
    assert (k + 1) * dir.0 == k * dir.0 + dir.0;
    assert (k + 1) * dir.1 == k * dir.1 + dir.1;
  }

  /** `XMAS` is written from `start` along `dir`, all four cells inside the grid. */
  predicate XmasAt(grid: seq<string>, start: Pos, dir: Pos)
    requires RowsCoverWidth(grid)
  {
    forall k :: 0 <= k < 4 ==> InGrid(grid, Walk(start, dir, k)) && At(grid, Walk(start, dir, k)) == "XMAS"[k]
  }

  /** `M`, `M`, `S`, `S` lie at `start` plus `dir` and its three successive quarter turns. */
  predicate CrossMasAt(grid: seq<string>, start: Pos, dir: Pos)
    requires RowsCoverWidth(grid)
  {
    forall k :: 0 <= k < 4 ==> InGrid(grid, Arm(start, dir, k)) && At(grid, Arm(start, dir, k)) == "MMSS"[k]
  }

  /** The cell at `start` plus `dir` turned `k` quarter turns. */
  function Arm(start: Pos, dir: Pos, k: nat): Pos {
    (start.0 + RotN(dir, k).0, start.1 + RotN(dir, k).1)
  }

  /**
    `find_xmas`: walk four cells from `start`, stopping at the first one outside the grid or
    not holding the next letter of `XMAS`. Line 0 must exist (its width is read).
  */
  method FindXmas(grid: seq<string>, start: Pos, dir: Pos) returns (found: bool)
    requires |grid| > 0 && RowsCoverWidth(grid)
    ensures found <==> XmasAt(grid, start, dir)
  {
    var currentPos := start;
    var width := |grid[0]|;
    var height := |grid|;
    var chars := "XMAS";
    for i := 0 to 4
      invariant currentPos == Walk(start, dir, i)
      invariant forall k :: 0 <= k < i ==> InGrid(grid, Walk(start, dir, k)) && At(grid, Walk(start, dir, k)) == "XMAS"[k]
    {
      if currentPos.0 < 0 || currentPos.0 >= width || currentPos.1 < 0 || currentPos.1 >= height {
        return false;
      }
      if grid[currentPos.1][currentPos.0] != chars[i] {
        return false;
      }
      WalkStep(start, dir, i);
      currentPos := (currentPos.0 + dir.0, currentPos.1 + dir.1);
    }
    found := true;
  }

  /**
    `find_x_mas`: look at `start + dir`, then turn the direction a quarter at a time, expecting
    `M`, `M`, `S`, `S`. The centre is not looked at.
  */
  method FindXMas(grid: seq<string>, start: Pos, dir: Pos) returns (found: bool)
    requires |grid| > 0 && RowsCoverWidth(grid)
    ensures found <==> CrossMasAt(grid, start, dir)
  {
    var currentPos := (start.0 + dir.0, start.1 + dir.1);
    var currentDir := dir;
    var width := |grid[0]|;
    var height := |grid|;
    var chars := "MMSS";
    for i := 0 to 4
      invariant currentDir == RotN(dir, i)
      invariant currentPos == (start.0 + currentDir.0, start.1 + currentDir.1)
      invariant forall k :: 0 <= k < i ==> InGrid(grid, Arm(start, dir, k)) && At(grid, Arm(start, dir, k)) == "MMSS"[k]
    {
      assert currentPos == Arm(start, dir, i);
      if currentPos.0 < 0 || currentPos.0 >= width || currentPos.1 < 0 || currentPos.1 >= height {
        return false;
      }
      if grid[currentPos.1][currentPos.0] != chars[i] {
        return false;
      }
      currentDir := RotateDir(currentDir);
      currentPos := (start.0 + currentDir.0, start.1 + currentDir.1);
    }
    found := true;
  }

  /** The two searches: the letter each starts from, the directions it tries, and what it looks for. */
  datatype Puzzle = Xmas | CrossMas {
    function Centre(): char {
      if this == Xmas then 'X' else 'A'
    }

    function Directions(): seq<Pos> {
      if this == Xmas then XmasDirections else CrossDirections
    }

    predicate Found(grid: seq<string>, start: Pos, dir: Pos)
      requires RowsCoverWidth(grid)
    {
      if this == Xmas then XmasAt(grid, start, dir) else CrossMasAt(grid, start, dir)
    }
  }

  /** Of the first `j` directions of the puzzle, how many find the word at `(x, y)`. */
  function DirSum(pz: Puzzle, grid: seq<string>, x: int, y: int, j: nat): (n: nat)
    requires RowsCoverWidth(grid) && j <= |pz.Directions()|
    ensures n <= j
  {
    if j == 0 then 0
    else DirSum(pz, grid, x, y, j - 1) + (if pz.Found(grid, (x, y), pz.Directions()[j - 1]) then 1 else 0)
  }

  /** The finds over the first `m` cells of line `y`, counted only at cells holding the puzzle's letter. */
  function LineSum(pz: Puzzle, grid: seq<string>, y: nat, m: nat): nat
    requires RowsCoverWidth(grid) && y < |grid| && m <= |grid[y]|
  {
    if m == 0 then 0
    else
      LineSum(pz, grid, y, m - 1)
      + (if grid[y][m - 1] == pz.Centre() then DirSum(pz, grid, m - 1, y, |pz.Directions()|) else 0)
  }

  /** The finds over the first `n` lines. */
  function RowsSum(pz: Puzzle, grid: seq<string>, n: nat): nat
    requires RowsCoverWidth(grid) && n <= |grid|
  {
    if n == 0 then 0 else RowsSum(pz, grid, n - 1) + LineSum(pz, grid, n - 1, |grid[n - 1]|)
  }

  /** The number of times `c` occurs in the first `m` cells of a line. */
  function CountIn(line: string, c: char, m: nat): nat
    requires m <= |line|
  {
    if m == 0 then 0 else CountIn(line, c, m - 1) + (if line[m - 1] == c then 1 else 0)
  }

  /** The number of times `c` occurs in the first `n` lines. */
  function CountInRows(grid: seq<string>, c: char, n: nat): nat
    requires n <= |grid|
  {
    if n == 0 then 0 else CountInRows(grid, c, n - 1) + CountIn(grid[n - 1], c, |grid[n - 1]|)
  }

  lemma {:induction false} LineSumBound(pz: Puzzle, grid: seq<string>, y: nat, m: nat)
    requires RowsCoverWidth(grid) && y < |grid| && m <= |grid[y]|
    ensures LineSum(pz, grid, y, m) <= |pz.Directions()| * CountIn(grid[y], pz.Centre(), m)
  {
    if m > 0 {
      LineSumBound(pz, grid, y, m - 1);
      MulAdd(|pz.Directions()|, CountIn(grid[y], pz.Centre(), m - 1), if grid[y][m - 1] == pz.Centre() then 1 else 0);
    }
  }

  /** Each cell holding the puzzle's letter adds at most one find per direction. */
  lemma {:induction false} RowsSumBound(pz: Puzzle, grid: seq<string>, n: nat)
    requires RowsCoverWidth(grid) && n <= |grid|
    ensures RowsSum(pz, grid, n) <= |pz.Directions()| * CountInRows(grid, pz.Centre(), n)
  {
    if n > 0 {
      RowsSumBound(pz, grid, n - 1);
      LineSumBound(pz, grid, n - 1, |grid[n - 1]|);
      MulAdd(|pz.Directions()|, CountInRows(grid, pz.Centre(), n - 1), CountIn(grid[n - 1], pz.Centre(), |grid[n - 1]|));
    }
  }

  lemma MulAdd(d: nat, a: nat, b: nat)
    ensures d * (a + b) == d * a + d * b
  {
  }

  /** An `XMAS` starts with its `X`, so the letter test of `search_xmas` only saves work. */
  lemma XmasStartsAtX(grid: seq<string>, start: Pos, dir: Pos)
    requires RowsCoverWidth(grid) && XmasAt(grid, start, dir)
    ensures InGrid(grid, start) && At(grid, start) == 'X'
  {
    assert Walk(start, dir, 0) == start;
  }

  /** The four cells of an `XMAS` are distinct only when the direction is not zero; the zero direction never finds it. */
  lemma XmasNeedsDirection(grid: seq<string>, start: Pos)
    requires RowsCoverWidth(grid)
    ensures !XmasAt(grid, start, (0, 0))
  {
    assert Walk(start, (0, 0), 0) == Walk(start, (0, 0), 1);
  }

  /** A diagonal cross read from one direction reads as the same cross from the direction two turns further on, with the letters swapped. */
  lemma CrossMasOpposite(grid: seq<string>, start: Pos, dir: Pos)
    requires RowsCoverWidth(grid) && CrossMasAt(grid, start, dir)
    ensures !CrossMasAt(grid, start, RotN(dir, 2))
  {
    assert At(grid, Arm(start, dir, 2)) == 'S';
    assert Arm(start, RotN(dir, 2), 0) == Arm(start, dir, 2);
  }

  /**
    The loops of `search_xmas` and `search_x_mas`: every cell of every line, and, at a cell
    holding the puzzle's letter, every direction of the puzzle.
  */
  method Search(pz: Puzzle, grid: seq<string>) returns (count: int)
    requires RowsCoverWidth(grid)
    ensures count == RowsSum(pz, grid, |grid|)
  {
    count := 0;
    for y := 0 to |grid|
      invariant count == RowsSum(pz, grid, y)
    {
      var line := grid[y];
      for x := 0 to |line|
        invariant count == RowsSum(pz, grid, y) + LineSum(pz, grid, y, x)
      {
        if line[x] == pz.Centre() {
          var found := CountFound(pz, grid, x, y);
          count := count + found;
        }
      }
    }
  }

  /** The innermost loop of `search_xmas` and `search_x_mas`: the directions of the puzzle that find the word at one cell. */
  method CountFound(pz: Puzzle, grid: seq<string>, x: int, y: int) returns (count: nat)
    requires RowsCoverWidth(grid) && 0 <= y < |grid|
    ensures count == DirSum(pz, grid, x, y, |pz.Directions()|)
  {
    count := 0;
    var directions := pz.Directions();
    for k := 0 to |directions|
      invariant count == DirSum(pz, grid, x, y, k)
    {
      var found;
      if pz == Xmas {
        found := FindXmas(grid, (x, y), directions[k]);
      } else {
        found := FindXMas(grid, (x, y), directions[k]);
      }
      if found {
        count := count + 1;
      }
    }
  }

  /** `search_xmas`: the number of (cell, direction) pairs at which `XMAS` is written; at most eight per `X`. */
  method SearchXmas(grid: seq<string>) returns (count: int)
    requires RowsCoverWidth(grid)
    ensures count == RowsSum(Xmas, grid, |grid|)
    ensures 0 <= count <= 8 * CountInRows(grid, 'X', |grid|)
  {
    count := Search(Xmas, grid);
    RowsSumBound(Xmas, grid, |grid|);
  }

  /** `search_x_mas`: the number of (cell holding `A`, diagonal) pairs that find the cross; at most four per `A`. */
  method SearchXMas(grid: seq<string>) returns (count: int)
    requires RowsCoverWidth(grid)
    ensures count == RowsSum(CrossMas, grid, |grid|)
    ensures 0 <= count <= 4 * CountInRows(grid, 'A', |grid|)
  {
    count := Search(CrossMas, grid);
    RowsSumBound(CrossMas, grid, |grid|);
  }
}
