/**
  Day 6 library (p6/src/lib.rs): a guard walks a lab map, turning right at every obstacle and
  marking the cells it stands on, until it leaves the map. The guard position is `(x, y)`:
  column `x` of row `y`, row 0 being the first input line.
*/
module P6 {
  import opened Wrappers
  import opened Text

  datatype Location = Visited | Obstacle | Open | OutOfBounds

  datatype Direction = Up | Down | Left | Right

  type Grid = seq<seq<Location>>

  /** The direction after a right turn. */
  function Rotate(d: Direction): Direction {
    match d
    case Up => Right
    case Right => Down
    case Down => Left
    case Left => Up
  }

  /** `d` after `k` right turns. */
  function RotN(d: Direction, k: nat): Direction {
    if k == 0 then d else Rotate(RotN(d, k - 1))
  }

  /** Right turns cycle through all four directions, and the fourth brings the guard back to where it faced. */
  lemma RotateCycle(d: Direction)
    ensures RotN(d, 4) == d
    ensures RotN(d, 1) != d && RotN(d, 2) != d && RotN(d, 3) != d
    ensures RotN(d, 1) != RotN(d, 2) && RotN(d, 1) != RotN(d, 3) && RotN(d, 2) != RotN(d, 3)
  {
  }

  /** `move_guard`: the step the guard takes facing `d` (y grows downward). */
  function Offset(d: Direction): (int, int) {
    match d
    case Up => (0, -1)
    case Right => (1, 0)
    case Down => (0, 1)
    case Left => (-1, 0)
  }

  /** Each direction is one cell along one axis, and a right turn turns the step a quarter clockwise on screen. */
  lemma OffsetTurns(d: Direction)
    ensures var o := Offset(d); (o.0 == 0) != (o.1 == 0) && -1 <= o.0 <= 1 && -1 <= o.1 <= 1
    ensures Offset(Rotate(d)) == (-Offset(d).1, Offset(d).0)
  {
  }

  /** The grid has a row, its first row has a cell, and no row is shorter than the first. */
  predicate Shaped(g: Grid) {
    |g| > 0 && |g[0]| > 0 && forall r :: 0 <= r < |g| ==> |g[0]| <= |g[r]|
  }

  /** The guard at `p` has left the grid: `p` is outside the width of row 0 or the number of rows. */
  predicate OffGrid(g: Grid, p: (int, int))
    requires |g| > 0
  {
    p.1 >= |g| || p.0 >= |g[0]| || p.1 < 0 || p.0 < 0
  }

  /**
    `out_of_bounds` as written: it destructures the position as `(y, x)`, although the position
    holds `(x, y)`, so the column is compared against the height and the row against the width.
  */
  function OutOfBoundsAsWritten(g: Grid, p: (int, int)): bool
    requires |g| > 0
  {
    var (y, x) := p;
    y >= |g| || x >= |g[0]| || y < 0 || x < 0
  }

  /** On a square grid the swap makes no difference. */
  lemma OutOfBoundsSquare(g: Grid, p: (int, int))
    requires |g| > 0 && |g| == |g[0]|
    ensures OutOfBoundsAsWritten(g, p) == OffGrid(g, p)
  {
  }

  /** On a grid one row high and three cells wide, a guard in the last column is still on the grid, yet the bounds test as written says it has left. */
  lemma OutOfBoundsWideGrid()
    ensures var g := [[Open, Open, Open]]; OutOfBoundsAsWritten(g, (2, 0)) && !OffGrid(g, (2, 0))
  {
  }

  /** On a grid three rows high and one cell wide, a guard one cell right of the grid is reported on it (and reading its cell would panic). */
  lemma OutOfBoundsTallGrid()
    ensures var g := [[Open], [Open], [Open]]; !OutOfBoundsAsWritten(g, (1, 0)) && OffGrid(g, (1, 0))
  {
  }

  /** `search_ahead` on a grid: the cell one step along `d` from `p`, or `OutOfBounds` off the grid. */
  function Ahead(g: Grid, p: (int, int), d: Direction): (r: Location)
    requires Shaped(g)
    ensures var n := (p.0 + Offset(d).0, p.1 + Offset(d).1);
      (r == OutOfBounds && OffGrid(g, n)) || (!OffGrid(g, n) && r == g[n.1][n.0])
  {
    var next := (p.0 + Offset(d).0, p.1 + Offset(d).1);
    if next.1 < |g| && next.0 < |g[0]| && next.0 >= 0 && next.1 >= 0 then g[next.1][next.0] else OutOfBounds
  }

  /** The number of right turns, from 0 upward, before the cell ahead is not an obstacle; 4 when every direction is blocked. */
  function Turns(g: Grid, p: (int, int), d: Direction): (k: nat)
    requires Shaped(g)
    ensures k <= 4
    ensures forall i :: 0 <= i < k ==> Ahead(g, p, RotN(d, i)) == Obstacle
    ensures k < 4 ==> Ahead(g, p, RotN(d, k)) != Obstacle
  {
    TurnsFrom(g, p, d, 0)
  }

  function TurnsFrom(g: Grid, p: (int, int), d: Direction, i: nat): (k: nat)
    requires Shaped(g) && i <= 4
    requires forall j :: 0 <= j < i ==> Ahead(g, p, RotN(d, j)) == Obstacle
    ensures i <= k <= 4
    ensures forall j :: 0 <= j < k ==> Ahead(g, p, RotN(d, j)) == Obstacle
    ensures k < 4 ==> Ahead(g, p, RotN(d, k)) != Obstacle
    decreases 4 - i
  {
    if i == 4 || Ahead(g, p, RotN(d, i)) != Obstacle then i else TurnsFrom(g, p, d, i + 1)
  }

  /** The cell at `p` marked `Visited`. */
  function Mark(g: Grid, p: (int, int)): (r: Grid)
    requires Shaped(g) && !OffGrid(g, p)
    ensures Shaped(r) && |r| == |g|
  {
    g[p.1 := g[p.1][p.0 := Visited]]
  }

  /** The fields of a `Map`. */
  datatype State = State(guardPos: (int, int), grid: Grid, direction: Direction)

  /** One pass of the outer loop of `resolve_map` needs a way out: not all four directions blocked. */
  predicate CanMove(st: State)
    requires Shaped(st.grid) && !OffGrid(st.grid, st.guardPos)
  {
    Turns(Mark(st.grid, st.guardPos), st.guardPos, st.direction) < 4
  }

  /** One pass of the outer loop: mark the guard's cell, turn right past the obstacles, step forward. */
  function Next(st: State): (r: State)
    requires Shaped(st.grid) && !OffGrid(st.grid, st.guardPos) && CanMove(st)
    ensures Shaped(r.grid)
  {
    var g := Mark(st.grid, st.guardPos);
    var d := RotN(st.direction, Turns(g, st.guardPos, st.direction));
    State((st.guardPos.0 + Offset(d).0, st.guardPos.1 + Offset(d).1), g, d)
  }

  datatype Status = Exited | Stuck | OutOfFuel

  /**
    `resolve_map` for at most `fuel` steps: while the guard is on the grid, mark its cell, turn
    right while an obstacle is ahead, and step forward. `Stuck` when all four directions are
    blocked: the source then turns forever, facing the same obstacles each time round.
  */
  function Patrol(st: State, fuel: nat): (r: (Status, State))
    requires Shaped(st.grid)
    ensures Shaped(r.1.grid)
    decreases fuel
  {
    if OffGrid(st.grid, st.guardPos) then (Exited, st)
    else if fuel == 0 then (OutOfFuel, st)
    else if !CanMove(st) then (Stuck, State(st.guardPos, Mark(st.grid, st.guardPos), st.direction))
    else Patrol(Next(st), fuel - 1)
  }

  /** One more step of the patrol is one pass of the loop. */
  lemma PatrolNext(st: State, fuel: nat)
    requires Shaped(st.grid) && !OffGrid(st.grid, st.guardPos) && fuel > 0 && CanMove(st)
    ensures Patrol(st, fuel) == Patrol(Next(st), fuel - 1)
  {
  }

  /** The patrol ends when the guard is off the grid or the fuel is spent. */
  lemma PatrolDone(st: State, fuel: nat)
    requires Shaped(st.grid) && (OffGrid(st.grid, st.guardPos) || fuel == 0)
    ensures Patrol(st, fuel) == (if OffGrid(st.grid, st.guardPos) then Exited else OutOfFuel, st)
  {
  }

  /** The patrol is stuck when no turn leads past the obstacles. */
  lemma PatrolStuck(st: State, fuel: nat)
    requires Shaped(st.grid) && !OffGrid(st.grid, st.guardPos) && fuel > 0 && !CanMove(st)
    ensures Patrol(st, fuel) == (Stuck, State(st.guardPos, Mark(st.grid, st.guardPos), st.direction))
  {
  }

  /** The patrol from `st` with `fuel` steps left ends in `goal`. */
  ghost predicate EndsIn(st: State, fuel: nat, goal: (Status, State))
    requires Shaped(st.grid)
  {
    Patrol(st, fuel) == goal
  }

  /** No cell of the grid holds the `OutOfBounds` marker (parsing never produces one). */
  predicate NoMarkerCells(g: Grid) {
    forall r, c :: 0 <= r < |g| && 0 <= c < |g[r]| ==> g[r][c] != OutOfBounds
  }

  /** What `resolve_map` needs so as not to panic: a shaped grid, and a guard on the grid stands on an open or visited cell. */
  predicate Safe(st: State) {
    && Shaped(st.grid)
    && NoMarkerCells(st.grid)
    && (!OffGrid(st.grid, st.guardPos) ==> st.grid[st.guardPos.1][st.guardPos.0] in {Open, Visited})
  }

  /** Marking keeps the grid free of `OutOfBounds` cells and leaves the guard on a visited cell. */
  lemma MarkSafe(st: State)
    requires Safe(st) && !OffGrid(st.grid, st.guardPos)
    ensures Safe(State(st.guardPos, Mark(st.grid, st.guardPos), st.direction))
  {
  }

  /** The guard only steps onto a cell that is not an obstacle. */
  lemma NextSafe(st: State)
    requires Safe(st) && !OffGrid(st.grid, st.guardPos) && CanMove(st)
    ensures Safe(Next(st))
  {
    var g := Mark(st.grid, st.guardPos);
    MarkSafe(st);
    var d := RotN(st.direction, Turns(g, st.guardPos, st.direction));
    var a := Ahead(g, st.guardPos, d);
    assert a != Obstacle;
  }

  /** Every state the patrol reaches is safe: `resolve_map` never panics on a safe start. */
  lemma {:induction false} PatrolSafe(st: State, fuel: nat)
    requires Safe(st)
    ensures Safe(Patrol(st, fuel).1)
    decreases fuel
  {
    if !OffGrid(st.grid, st.guardPos) && fuel > 0 {
      if CanMove(st) {
        NextSafe(st);
        PatrolSafe(Next(st), fuel - 1);
      } else {
        MarkSafe(st);
      }
    }
  }

  /** `after` has the shape of `before`, and every cell is unchanged or went from `Open` to `Visited`. */
  predicate OnlyMarks(before: Grid, after: Grid) {
    && |before| == |after|
    && (forall r :: 0 <= r < |before| ==> |before[r]| == |after[r]|)
    && (forall r, c :: 0 <= r < |before| && 0 <= c < |before[r]| ==>
          after[r][c] == before[r][c] || (before[r][c] == Open && after[r][c] == Visited))
  }

  lemma OnlyMarksTransitive(a: Grid, b: Grid, c: Grid)
    requires OnlyMarks(a, b) && OnlyMarks(b, c)
    ensures OnlyMarks(a, c)
  {
  }

  /** Marking a guard that stands on an open or visited cell only marks. */
  lemma MarkOnlyMarks(st: State)
    requires Safe(st) && !OffGrid(st.grid, st.guardPos)
    ensures OnlyMarks(st.grid, Mark(st.grid, st.guardPos))
  {
  }

  /** The patrol only ever rewrites `Open` to `Visited`: obstacles and visited cells stay as they are. */
  lemma {:induction false} PatrolOnlyMarks(st: State, fuel: nat)
    requires Safe(st)
    ensures OnlyMarks(st.grid, Patrol(st, fuel).1.grid)
    decreases fuel
  {
    if !OffGrid(st.grid, st.guardPos) && fuel > 0 {
      MarkOnlyMarks(st);
      if CanMove(st) {
        var next := Next(st);
        assert next.grid == Mark(st.grid, st.guardPos);
        NextSafe(st);
        PatrolOnlyMarks(next, fuel - 1);
        OnlyMarksTransitive(st.grid, next.grid, Patrol(next, fuel - 1).1.grid);
      }
    }
  }

  /** `Exited` means the guard has left the grid; `Stuck` means every direction around it is blocked. */
  lemma {:induction false} PatrolStatus(st: State, fuel: nat)
    requires Shaped(st.grid)
    ensures var (status, end) := Patrol(st, fuel);
      (status == Exited ==> OffGrid(end.grid, end.guardPos))
      && (status != Exited ==> !OffGrid(end.grid, end.guardPos))
      && (status == Stuck ==> forall i :: 0 <= i < 4 ==> Ahead(end.grid, end.guardPos, RotN(end.direction, i)) == Obstacle)
    decreases fuel
  {
    if !OffGrid(st.grid, st.guardPos) && fuel > 0 && CanMove(st) {
      PatrolStatus(Next(st), fuel - 1);
    }
  }

  /** The number of cells of a row holding `loc`. */
  function RowCount(row: seq<Location>, loc: Location): (n: nat)
    ensures n <= |row|
  {
    if row == [] then 0 else RowCount(row[..|row| - 1], loc) + (if row[|row| - 1] == loc then 1 else 0)
  }

  /** The number of cells of the grid holding `loc`. */
  function GridCount(g: Grid, loc: Location): nat {
    if g == [] then 0 else GridCount(g[..|g| - 1], loc) + RowCount(g[|g| - 1], loc)
  }

  /** The number of cells of the grid. */
  function CellCount(g: Grid): nat {
    if g == [] then 0 else CellCount(g[..|g| - 1]) + |g[|g| - 1]|
  }

  lemma {:induction false} RowCountDisjoint(row: seq<Location>, a: Location, b: Location)
    requires a != b
    ensures RowCount(row, a) + RowCount(row, b) <= |row|
  {
    if row != [] {
      RowCountDisjoint(row[..|row| - 1], a, b);
    }
  }

  /** Visited and obstacle cells together are at most all the cells: at most the non-obstacle cells are visited. */
  lemma {:induction false} VisitedBound(g: Grid)
    ensures GridCount(g, Visited) + GridCount(g, Obstacle) <= CellCount(g)
  {
    if g != [] {
      VisitedBound(g[..|g| - 1]);
      RowCountDisjoint(g[|g| - 1], Visited, Obstacle);
    }
  }

  lemma {:induction false} RowCountGrows(before: seq<Location>, after: seq<Location>)
    requires |before| == |after|
    requires forall c :: 0 <= c < |before| ==> after[c] == before[c] || (before[c] == Open && after[c] == Visited)
    ensures RowCount(before, Visited) <= RowCount(after, Visited)
    ensures RowCount(after, Obstacle) == RowCount(before, Obstacle)
  {
    if before != [] {
      RowCountGrows(before[..|before| - 1], after[..|after| - 1]);
    }
  }

  /** Marking cells never lowers the visited count nor changes the obstacle count. */
  lemma {:induction false} OnlyMarksCounts(before: Grid, after: Grid)
    requires OnlyMarks(before, after)
    ensures GridCount(before, Visited) <= GridCount(after, Visited)
    ensures GridCount(after, Obstacle) == GridCount(before, Obstacle)
  {
    if before != [] {
      var n := |before| - 1;
      assert OnlyMarks(before[..n], after[..n]);
      RowCountGrows(before[n], after[n]);
      OnlyMarksCounts(before[..n], after[..n]);
    }
  }

  /** A guard glyph and the direction it shows. */
  function GlyphDirection(c: char): Option<Direction> {
    match c
    case '^' => Some(Up)
    case '>' => Some(Right)
    case 'v' => Some(Down)
    case '<' => Some(Left)
    case _ => None
  }

  /** The cell a character becomes: `.` and the guard glyphs are open, `#` is an obstacle, anything else is dropped. */
  function CellOf(c: char): Option<Location> {
    if c == '.' || GlyphDirection(c).Some? then Some(Open) else if c == '#' then Some(Obstacle) else None
  }

  /** The cells of a line, in order, without the dropped characters. */
  function ParseRow(line: string): (r: seq<Location>)
    ensures |r| <= |line|
    ensures forall c :: 0 <= c < |r| ==> r[c] in {Open, Obstacle}
  {
    if line == [] then []
    else
      var c := line[|line| - 1];
      ParseRow(line[..|line| - 1]) + (match CellOf(c) case Some(l) => [l] case None => [])
  }

  function ParseGrid(ls: seq<string>): (g: Grid)
    ensures |g| == |ls| && forall i :: 0 <= i < |g| ==> g[i] == ParseRow(ls[i])
  {
    seq(|ls|, i requires 0 <= i < |ls| => ParseRow(ls[i]))
  }

  /** The index of the last guard glyph of a line. */
  function LastGlyph(line: string): (r: Option<nat>)
    ensures r.Some? ==> r.value < |line| && GlyphDirection(line[r.value]).Some?
    ensures r.Some? ==> forall j :: r.value < j < |line| ==> GlyphDirection(line[j]).None?
    ensures r.None? ==> forall j :: 0 <= j < |line| ==> GlyphDirection(line[j]).None?
  {
    if line == [] then None
    else if GlyphDirection(line[|line| - 1]).Some? then Some(|line| - 1)
    else LastGlyph(line[..|line| - 1])
  }

  /**
    The guard of `Map::new`: the last glyph read, at `(character index, line index)`, facing its
    way; `(0, 0)` facing up when there is none.
  */
  function GuardStart(ls: seq<string>): ((int, int), Direction) {
    if ls == [] then ((0, 0), Up)
    else
      var line := ls[|ls| - 1];
      match LastGlyph(line)
      case Some(j) => ((j, |ls| - 1), GlyphDirection(line[j]).value)
      case None => GuardStart(ls[..|ls| - 1])
  }

  /** The guard starts on its last glyph, facing the glyph's way, and no glyph is read after it. */
  lemma {:induction false} GuardStartGlyph(ls: seq<string>)
    ensures var (p, d) := GuardStart(ls);
      (forall i, j :: 0 <= i < |ls| && 0 <= j < |ls[i]| ==> GlyphDirection(ls[i][j]).None?) ==> p == (0, 0) && d == Up
    ensures var (p, d) := GuardStart(ls);
      (exists i, j :: 0 <= i < |ls| && 0 <= j < |ls[i]| && GlyphDirection(ls[i][j]).Some?) ==>
        && 0 <= p.1 < |ls| && 0 <= p.0 < |ls[p.1]| && GlyphDirection(ls[p.1][p.0]) == Some(d)
        && (forall j :: p.0 < j < |ls[p.1]| ==> GlyphDirection(ls[p.1][j]).None?)
        && (forall i, j :: p.1 < i < |ls| && 0 <= j < |ls[i]| ==> GlyphDirection(ls[i][j]).None?)
  {
    if ls != [] {
      GuardStartGlyph(ls[..|ls| - 1]);
    }
  }

  /** `Map::new` on the lines of the input. */
  function Parse(input: string): State {
    var ls := Lines(input);
    var (p, d) := GuardStart(ls);
    State(p, ParseGrid(ls), d)
  }

  /** A map line: only open cells, obstacles and guard glyphs. */
  predicate MapLine(line: string) {
    forall j :: 0 <= j < |line| ==> CellOf(line[j]).Some?
  }

  /** On a map line nothing is dropped: cell `j` comes from character `j`. */
  lemma {:induction false} ParseRowMapLine(line: string)
    requires MapLine(line)
    ensures |ParseRow(line)| == |line|
    ensures forall j :: 0 <= j < |line| ==> Some(ParseRow(line)[j]) == CellOf(line[j])
  {
    if line != [] {
      ParseRowMapLine(line[..|line| - 1]);
    }
  }

  /**
    A rectangular map with a guard glyph parses into a state `resolve_map` accepts: the guard
    stands on the open cell of its glyph.
  */
  lemma ParseSafe(input: string)
    requires var ls := Lines(input); |ls| > 0 && |ls[0]| > 0
    requires var ls := Lines(input); forall i :: 0 <= i < |ls| ==> MapLine(ls[i]) && |ls[i]| == |ls[0]|
    requires var ls := Lines(input); exists i, j :: 0 <= i < |ls| && 0 <= j < |ls[i]| && GlyphDirection(ls[i][j]).Some?
    ensures Safe(Parse(input))
  {
    var ls := Lines(input);
    forall i | 0 <= i < |ls| ensures |ParseRow(ls[i])| == |ls[i]| {
      ParseRowMapLine(ls[i]);
    }
    GuardStartGlyph(ls);
    var (p, d) := GuardStart(ls);
    ParseRowMapLine(ls[p.1]);
  }

  /**
    The inner loop of `Map::new` over line `i`: the cells of the line, and the guard after it:
    at the line's last glyph if it has one, otherwise as it was.
  */
  method ReadLine(line: string, i: int, pos: (int, int), dir: Direction) returns (currentLine: seq<Location>, pos': (int, int), dir': Direction)
    ensures currentLine == ParseRow(line)
    ensures (pos', dir') == match LastGlyph(line)
      case Some(k) => ((k, i), GlyphDirection(line[k]).value)
      case None => (pos, dir)
  {
    currentLine, pos', dir' := [], pos, dir;
    for j := 0 to |line|
      invariant currentLine == ParseRow(line[..j])
      invariant (pos', dir') == match LastGlyph(line[..j])
        case Some(k) => ((k, i), GlyphDirection(line[k]).value)
        case None => (pos, dir)
    {
      var c := line[j];
      assert line[..j + 1][..j] == line[..j];
      match c {
        case '.' => currentLine := currentLine + [Open];
        case '#' => currentLine := currentLine + [Obstacle];
        case '^' =>
          currentLine := currentLine + [Open];
          dir' := Up;
          pos' := (j, i);
        case '>' =>
          currentLine := currentLine + [Open];
          dir' := Right;
          pos' := (j, i);
        case 'v' =>
          currentLine := currentLine + [Open];
          dir' := Down;
          pos' := (j, i);
        case '<' =>
          currentLine := currentLine + [Open];
          dir' := Left;
          pos' := (j, i);
        case _ =>
      }
    }
    assert line[..|line|] == line;
  }

  /** The lab map being patrolled: the guard's position and heading, and the cells. */
  class Map {
    var guardPos: (int, int)
    var grid: Grid
    var direction: Direction

    function Snapshot(): State
      reads this
    {
      State(guardPos, grid, direction)
    }

    /** `Map::new`: one row per input line; the guard is set by the last glyph read. */
    constructor New(input: string)
      ensures Snapshot() == Parse(input)
    {
      var ls := Lines(input);
      var g: Grid := [];
      var dir := Up;
      var pos := (0, 0);
      for i := 0 to |ls|
        invariant g == ParseGrid(ls[..i])
        invariant (pos, dir) == GuardStart(ls[..i])
      {
        var currentLine;
        currentLine, pos, dir := ReadLine(ls[i], i, pos, dir);
        assert ls[..i + 1][..i] == ls[..i];
        assert ParseGrid(ls[..i + 1]) == ParseGrid(ls[..i]) + [ParseRow(ls[i])];
        g := g + [currentLine];
      }
      assert ls[..|ls|] == ls;
      guardPos := pos;
      grid := g;
      direction := dir;
    }

    /** `out_of_bounds`, corrected to compare the column with the width and the row with the height. It panics on an empty map. */
    function OutOfBounds(): bool
      reads this
      requires |grid| > 0 && |grid[0]| > 0
    {
      OffGrid(grid, guardPos)
    }

    /** `rotate_direction`: a right turn; nothing else changes. */
    method RotateDirection()
      modifies this
      ensures direction == Rotate(old(direction))
      ensures guardPos == old(guardPos) && grid == old(grid)
    {
      direction := match direction
        case Up => Right
        case Right => Down
        case Down => Left
        case Left => Up;
    }

    /** `move_guard`. */
    function MoveGuard(): (int, int)
      reads this
    {
      Offset(direction)
    }

    /** `search_ahead`: the cell in front of the guard, or `OutOfBounds`; the state is not changed. */
    function SearchAhead(): Location
      reads this
      requires Shaped(grid)
    {
      Ahead(grid, guardPos, direction)
    }

    /** `step_forward`: one step in the direction faced; the grid and the direction are unchanged. */
    method StepForward()
      modifies this
      ensures guardPos == (old(guardPos).0 + Offset(direction).0, old(guardPos).1 + Offset(direction).1)
      ensures grid == old(grid) && direction == old(direction)
    {
      var nextMove := MoveGuard();
      guardPos := (guardPos.0 + nextMove.0, guardPos.1 + nextMove.1);
    }

    /** `current_pos`: the cell under the guard; indexing off the grid panics. */
    function CurrentPos(): Location
      reads this
      requires 0 <= guardPos.1 < |grid| && 0 <= guardPos.0 < |grid[guardPos.1]|
    {
      grid[guardPos.1][guardPos.0]
    }

    /** `count_visited`: the number of `Visited` cells. */
    method CountVisited() returns (result: int)
      ensures result == GridCount(grid, Visited)
    {
      result := 0;
      for r := 0 to |grid|
        invariant result == GridCount(grid[..r], Visited)
      {
        var row := grid[r];
        for c := 0 to |row|
          invariant result == GridCount(grid[..r], Visited) + RowCount(row[..c], Visited)
        {
          if row[c] == Visited {
            result := result + 1;
          }
          assert row[..c + 1][..c] == row[..c];
        }
        assert row[..|row|] == row;
        assert grid[..r + 1][..r] == grid[..r];
      }
      assert grid[..|grid|] == grid;
    }

    /** The first half of the loop body of `resolve_map`: an open cell under the guard becomes visited; any other cell would panic. */
    method VisitCurrent()
      requires Safe(Snapshot()) && !OffGrid(grid, guardPos)
      modifies this
      ensures guardPos == old(guardPos) && direction == old(direction)
      ensures grid == Mark(old(grid), guardPos)
    {
      match CurrentPos() {
        case Open =>
          grid := grid[guardPos.1 := grid[guardPos.1][guardPos.0 := Visited]];
        case Visited =>
          assert grid[guardPos.1][guardPos.0 := Visited] == grid[guardPos.1];
        case Obstacle =>
          assert false;
        case OutOfBounds =>
          assert false;
      }
    }

    /**
      The turning loop of `resolve_map`: turn right while an obstacle is ahead. After four turns
      the guard faces its first direction again and the source would turn forever; the loop
      stops there.
    */
    method TurnPastObstacles() returns (turns: nat)
      requires Shaped(grid)
      modifies this
      ensures guardPos == old(guardPos) && grid == old(grid)
      ensures turns == Turns(grid, guardPos, old(direction))
      ensures direction == RotN(old(direction), turns)
      ensures turns == 4 ==> direction == old(direction)
    {
      turns := 0;
      while turns < 4
        invariant 0 <= turns <= 4
        invariant direction == RotN(old(direction), turns)
        invariant guardPos == old(guardPos) && grid == old(grid)
        invariant forall i :: 0 <= i < turns ==> Ahead(grid, guardPos, RotN(old(direction), i)) == Obstacle
      {
        if SearchAhead() != Obstacle {
          break;
        }
        RotateDirection();
        turns := turns + 1;
      }
      RotateCycle(old(direction));
    }

    /** One pass of the outer loop of `resolve_map`; `stuck` when all four directions are blocked. */
    method Advance() returns (stuck: bool)
      requires Safe(Snapshot()) && !OffGrid(grid, guardPos)
      modifies this
      ensures stuck <==> !CanMove(old(Snapshot()))
      ensures stuck ==> Snapshot() == State(old(guardPos), Mark(old(grid), old(guardPos)), old(direction))
      ensures !stuck ==> Snapshot() == Next(old(Snapshot())) && Safe(Snapshot())
    {
      ghost var before := Snapshot();
      VisitCurrent();
      var turns := TurnPastObstacles();
      if turns == 4 {
        return true;
      }
      StepForward();
      NextSafe(before);
      stuck := false;
    }

    /** One pass of the loop of `resolve_map`, seen from the patrol it belongs to: `goal` is still ahead. */
    method PatrolStep(ghost goal: (Status, State), ghost left: nat) returns (stuck: bool)
      requires Safe(Snapshot()) && !OffGrid(grid, guardPos)
      requires EndsIn(Snapshot(), left + 1, goal)
      modifies this
      ensures stuck ==> goal == (Stuck, Snapshot())
      ensures !stuck ==> Safe(Snapshot()) && EndsIn(Snapshot(), left, goal)
    {
      ghost var before := Snapshot();
      stuck := Advance();
      if stuck {
        PatrolStuck(before, left + 1);
      } else {
        PatrolNext(before, left + 1);
      }
    }

    /**
      `resolve_map`, for at most `fuel` steps of the outer loop, with the corrected bounds test
      (a finding). `Stuck` stands for the source turning forever.
    */
    method ResolveMap(fuel: nat) returns (status: Status)
      requires Safe(Snapshot())
      modifies this
      ensures (status, Snapshot()) == Patrol(old(Snapshot()), fuel)
    {
      ghost var goal := Patrol(Snapshot(), fuel);
      ghost var left: nat := fuel;
      var steps := 0;
      while steps < fuel && !OutOfBounds()
        invariant 0 <= steps <= fuel && left == fuel - steps
        invariant Safe(Snapshot())
        invariant EndsIn(Snapshot(), left, goal)
        decreases fuel - steps
      {
        left := left - 1;
        var stuck := PatrolStep(goal, left);
        if stuck {
          return Stuck;
        }
        steps := steps + 1;
      }
      PatrolDone(Snapshot(), left);
      if OutOfBounds() {
        status := Exited;
      } else {
        status := OutOfFuel;
      }
    }
  }

  /**
    `solution_one`: parse the map, let the guard walk (at most `fuel` steps), and count the
    visited cells; with `Exited`, that is the answer of the source.
  */
  method SolutionOne(input: string, fuel: nat) returns (result: int, status: Status)
    requires Safe(Parse(input))
    ensures (status, result) == (Patrol(Parse(input), fuel).0, GridCount(Patrol(Parse(input), fuel).1.grid, Visited))
  {
    var lab := new Map.New(input);
    status := lab.ResolveMap(fuel);
    result := lab.CountVisited();
  }
}
