/**
  Day 8 library (p8/src/lib.rs): antennas of one frequency (one character) create anti-nodes on
  the line through each pair; part one counts the reflections `2b - a`, part two every point
  of the lines inside the grid. Points are in the readable coordinates of the grid helper.
*/
module P8 {
  import opened Wrappers
  import opened Text
  import opened Helpers
  import opened Seqs

  /** A character parses into itself: `parse::<char>` of a one-character string never fails. */
  function CharCell(c: char): Option<char> {
    Some(c)
  }

  lemma CharsParse(input: string)
    ensures ParsesAll(Lines(input), CharCell)
  {
  }

  /** `find_anti_node`: `b` reflected away from `a`, that is `2b - a`. */
  function FindAntiNode(first: Point2D, second: Point2D): Point2D {
    Sub(Add(second, second), first)
  }

  /** `b` is the midpoint of `a` and its anti-node, which lies one displacement `b - a` beyond `b`. */
  lemma AntiNodeMidpoint(a: Point2D, b: Point2D)
    ensures var n := FindAntiNode(a, b); a.x + n.x == 2 * b.x && a.y + n.y == 2 * b.y
    ensures FindAntiNode(a, b) == Add(b, Sub(b, a))
    ensures Sub(FindAntiNode(a, b), b) == Sub(b, a)
  {
  }

  const Zero := Point2D(0, 0)

  /** How many more steps along `d` from `p` can stay on the grid, bounded along one moving axis. */
  function Budget(g: Grid<char>, p: Point2D, d: Point2D): nat
    requires g.NonEmpty()
  {
    var w, h := g.Width(), g.Height();
    if d.x > 0 then (if p.x < w then w - p.x else 0)
    else if d.x < 0 then (if p.x >= 0 then p.x + 1 else 0)
    else if d.y > 0 then (if p.y < h then h - p.y else 0)
    else if p.y >= 0 then p.y + 1 else 0
  }

  /** The points `p`, `p + d`, `p + 2d`, ... up to the first one off the grid. */
  function Ray(g: Grid<char>, p: Point2D, d: Point2D): (r: seq<Point2D>)
    requires g.NonEmpty() && (d != Zero || !g.InBounds(p))
    ensures forall k :: 0 <= k < |r| ==> g.InBounds(r[k])
    decreases Budget(g, p, d)
  {
    if g.InBounds(p) then [p] + Ray(g, Add(p, d), d) else []
  }

  lemma Spread(k: int, a: int, b: int)
    ensures a + b + (k - 1) * b == a + k * b
  {
  }

  /** Point `k` of the ray is `p + k d`, all of them are on the grid, and the next one is not. */
  lemma {:induction false} RayShape(g: Grid<char>, p: Point2D, d: Point2D)
    requires g.NonEmpty() && (d != Zero || !g.InBounds(p))
    ensures var r := Ray(g, p, d);
      forall k :: 0 <= k < |r| ==> r[k] == Point2D(p.x + k * d.x, p.y + k * d.y)
    ensures var r := Ray(g, p, d); !g.InBounds(Point2D(p.x + |r| * d.x, p.y + |r| * d.y))
    decreases Budget(g, p, d)
  {
    if g.InBounds(p) {
      var q := Add(p, d);
      RayShape(g, q, d);
      var r := Ray(g, p, d);
      forall k | 1 <= k < |r| ensures r[k] == Point2D(p.x + k * d.x, p.y + k * d.y) {
        assert r[k] == Ray(g, q, d)[k - 1];
        Spread(k, p.x, d.x);
        Spread(k, p.y, d.y);
      }
      Spread(|r|, p.x, d.x);
      Spread(|r|, p.y, d.y);
    }
  }

  /**
    What `find_anti_nodes(a, b)` returns: `b + k (b - a)` for `k = 1, 2, ...` while on the grid.
    With `a == b` and `b` on the grid the source loops forever, so that case is excluded.
  */
  function AntiNodeRay(g: Grid<char>, a: Point2D, b: Point2D): seq<Point2D>
    requires g.NonEmpty() && (a != b || !g.InBounds(b))
  {
    Ray(g, Add(b, Sub(b, a)), Sub(b, a))
  }

  /** Element `k` of `find_anti_nodes(a, b)` is `b + (k + 1)(b - a)`; all are on the grid, and the next point is not. */
  lemma AntiNodeRayShape(g: Grid<char>, a: Point2D, b: Point2D)
    requires g.NonEmpty() && (a != b || !g.InBounds(b))
    ensures var r := AntiNodeRay(g, a, b);
      forall k :: 0 <= k < |r| ==> g.InBounds(r[k]) && r[k] == Point2D(b.x + (k + 1) * (b.x - a.x), b.y + (k + 1) * (b.y - a.y))
    ensures var r, n := AntiNodeRay(g, a, b), |AntiNodeRay(g, a, b)| + 1;
      !g.InBounds(Point2D(b.x + n * (b.x - a.x), b.y + n * (b.y - a.y)))
  {
    var d := Sub(b, a);
    var p := Add(b, d);
    RayShape(g, p, d);
    var r := AntiNodeRay(g, a, b);
    forall k | 0 <= k < |r| ensures r[k] == Point2D(b.x + (k + 1) * d.x, b.y + (k + 1) * d.y) {
      Spread(k + 1, b.x, d.x);
      Spread(k + 1, b.y, d.y);
    }
    Spread(|r| + 1, b.x, d.x);
    Spread(|r| + 1, b.y, d.y);
  }

  /** When it is on the grid, part one's anti-node is the first point of part two's line. */
  lemma AntiNodeStartsRay(g: Grid<char>, a: Point2D, b: Point2D)
    requires g.NonEmpty() && (a != b || !g.InBounds(b))
    ensures g.InBounds(FindAntiNode(a, b)) <==> |AntiNodeRay(g, a, b)| > 0
    ensures g.InBounds(FindAntiNode(a, b)) ==> AntiNodeRay(g, a, b)[0] == FindAntiNode(a, b)
  {
  }

  /** Counting needs `width()`, which panics on an empty grid unless nothing is counted. */
  predicate Countable(g: Grid<char>, m: map<char, seq<Point2D>>) {
    g.NonEmpty() || m == map[]
  }

  /** The in-bounds anti-nodes of the ordered pairs of distinct indices `(i', j')` before `(i, j)` in loop order. */
  ghost function PairNodesUpTo(g: Grid<char>, l: seq<Point2D>, i: int, j: int): set<Point2D>
    requires g.NonEmpty()
  {
    set i', j' | 0 <= i' < |l| && 0 <= j' < |l| && i' != j' && (i' < i || (i' == i && j' < j))
                 && g.InBounds(FindAntiNode(l[i'], l[j'])) :: FindAntiNode(l[i'], l[j'])
  }

  /** The in-bounds anti-nodes of one frequency. */
  ghost function PairNodes(g: Grid<char>, l: seq<Point2D>): set<Point2D>
    requires g.NonEmpty()
  {
    PairNodesUpTo(g, l, |l|, 0)
  }

  /** Part one: the distinct in-bounds anti-nodes over the frequencies in `keys`. */
  ghost function AntiNodesOf(g: Grid<char>, m: map<char, seq<Point2D>>, keys: set<char>): set<Point2D>
    requires Countable(g, m)
  {
    set c, p | c in keys && c in m && p in PairNodes(g, m[c]) :: p
  }

  ghost function AntiNodes(g: Grid<char>, m: map<char, seq<Point2D>>): set<Point2D>
    requires Countable(g, m)
  {
    AntiNodesOf(g, m, m.Keys)
  }

  /** Every anti-node counted is on the grid and reflects one antenna of a frequency through another of the same frequency. */
  lemma AntiNodesMeaning(g: Grid<char>, m: map<char, seq<Point2D>>, p: Point2D)
    requires Countable(g, m)
    ensures p in AntiNodes(g, m) <==>
      exists c, i, j :: c in m && 0 <= i < |m[c]| && 0 <= j < |m[c]| && i != j
        && g.InBounds(FindAntiNode(m[c][i], m[c][j])) && p == FindAntiNode(m[c][i], m[c][j])
  {
    if p in AntiNodes(g, m) {
      var c :| c in m && p in PairNodes(g, m[c]);
      var l := m[c];
      var i, j :| 0 <= i < |l| && 0 <= j < |l| && i != j && g.InBounds(FindAntiNode(l[i], l[j])) && p == FindAntiNode(l[i], l[j]);
    }
    if exists c, i, j :: c in m && 0 <= i < |m[c]| && 0 <= j < |m[c]| && i != j
        && g.InBounds(FindAntiNode(m[c][i], m[c][j])) && p == FindAntiNode(m[c][i], m[c][j]) {
      var c, i, j :| c in m && 0 <= i < |m[c]| && 0 <= j < |m[c]| && i != j
        && g.InBounds(FindAntiNode(m[c][i], m[c][j])) && p == FindAntiNode(m[c][i], m[c][j]);
      assert p in PairNodes(g, m[c]);
    }
  }

  /** The lists of a table have no duplicates: then part two's lines are finite. */
  predicate DistinctLists(m: map<char, seq<Point2D>>) {
    forall c :: c in m ==> NoDups(m[c])
  }

  /** The points of the lines of pairs `(i', j')` before `(i, j)` in loop order. */
  ghost function RayNodesUpTo(g: Grid<char>, l: seq<Point2D>, i: int, j: int): set<Point2D>
    requires g.NonEmpty() && NoDups(l)
  {
    set i', j', p | 0 <= i' < |l| && 0 <= j' < |l| && i' != j' && (i' < i || (i' == i && j' < j))
                    && p in AntiNodeRay(g, l[i'], l[j']) :: p
  }

  /** Part two for one frequency: its antennas when there are two or more, and every point of its lines. */
  ghost function ResonantNodes(g: Grid<char>, l: seq<Point2D>): set<Point2D>
    requires g.NonEmpty() && NoDups(l)
  {
    (if |l| > 1 then Elems(l) else {}) + RayNodesUpTo(g, l, |l|, 0)
  }

  ghost function ResonantNodesOf(g: Grid<char>, m: map<char, seq<Point2D>>, keys: set<char>): set<Point2D>
    requires Countable(g, m) && DistinctLists(m)
  {
    set c, p | c in keys && c in m && p in ResonantNodes(g, m[c]) :: p
  }

  ghost function ResonantAntiNodes(g: Grid<char>, m: map<char, seq<Point2D>>): set<Point2D>
    requires Countable(g, m) && DistinctLists(m)
  {
    ResonantNodesOf(g, m, m.Keys)
  }

  /** Every antenna of a frequency with two or more antennas is a resonant anti-node. */
  lemma AntennasResonate(g: Grid<char>, m: map<char, seq<Point2D>>, c: char, k: int)
    requires Countable(g, m) && DistinctLists(m)
    requires c in m && |m[c]| > 1 && 0 <= k < |m[c]|
    ensures m[c][k] in ResonantAntiNodes(g, m)
  {
    assert m[c][k] in ResonantNodes(g, m[c]);
  }

  /** Part one's anti-nodes are among part two's, so part two counts at least as many. */
  lemma AntiNodesWithinResonant(g: Grid<char>, m: map<char, seq<Point2D>>)
    requires Countable(g, m) && DistinctLists(m)
    ensures AntiNodes(g, m) <= ResonantAntiNodes(g, m)
    ensures |AntiNodes(g, m)| <= |ResonantAntiNodes(g, m)|
  {
    forall p | p in AntiNodes(g, m) ensures p in ResonantAntiNodes(g, m) {
      var c :| c in m && p in PairNodes(g, m[c]);
      var l := m[c];
      var i, j :| 0 <= i < |l| && 0 <= j < |l| && i != j && g.InBounds(FindAntiNode(l[i], l[j])) && p == FindAntiNode(l[i], l[j]);
      AntiNodeStartsRay(g, l[i], l[j]);
      assert p in AntiNodeRay(g, l[i], l[j]);
      assert p in RayNodesUpTo(g, l, |l|, 0);
      assert p in ResonantNodes(g, l);
    }
    SubsetCard(AntiNodes(g, m), ResonantAntiNodes(g, m));
  }

  /** Readable coordinates run row by row: earlier rows are higher up, and within a row x grows. */
  predicate Before(p: Point2D, q: Point2D) {
    p.y > q.y || (p.y == q.y && p.x < q.x)
  }

  predicate Ascending(cells: seq<(char, Point2D)>) {
    forall a, b :: 0 <= a < b < |cells| ==> Before(cells[a].1, cells[b].1)
  }

  lemma AscendingAppend(xs: seq<(char, Point2D)>, ys: seq<(char, Point2D)>)
    requires Ascending(xs) && Ascending(ys)
    requires forall x, y :: x in xs && y in ys ==> Before(x.1, y.1)
    ensures Ascending(xs + ys)
  {
    var s := xs + ys;
    forall a, b | 0 <= a < b < |s| ensures Before(s[a].1, s[b].1) {
      if b < |xs| {
        assert s[a] == xs[a] && s[b] == xs[b];
      } else if a >= |xs| {
        assert s[a] == ys[a - |xs|] && s[b] == ys[b - |xs|];
      } else {
        assert s[a] == xs[a] && s[b] == ys[b - |xs|];
      }
    }
  }

  /** The antennas of row `r` in its first `j` cells, in order: frequency and readable point. */
  function RowAntennas(g: Grid<char>, r: int, j: int): seq<(char, Point2D)>
    requires 0 <= r < |g.rows| && 0 <= j <= |g.rows[r]|
    decreases j
  {
    if j == 0 then []
    else
      var c := g.rows[r][j - 1];
      RowAntennas(g, r, j - 1) + (if c != '.' then [(c, g.ConvertCoordsReadable((r, j - 1)))] else [])
  }

  /** The antennas of the first `r` rows, in the order `initialise_antennae` meets them. */
  function AntennasUpTo(g: Grid<char>, r: int): seq<(char, Point2D)>
    requires 0 <= r <= |g.rows|
    decreases r
  {
    if r == 0 then [] else AntennasUpTo(g, r - 1) + RowAntennas(g, r - 1, |g.rows[r - 1]|)
  }

  function Antennas(g: Grid<char>): seq<(char, Point2D)> {
    AntennasUpTo(g, |g.rows|)
  }

  lemma {:induction false} RowAntennasIn(g: Grid<char>, r: int, j: int)
    requires 0 <= r < |g.rows| && 0 <= j <= |g.rows[r]|
    ensures forall c, p :: (c, p) in RowAntennas(g, r, j) <==>
      c != '.' && p.y == |g.rows| - 1 - r && 0 <= p.x < j && g.rows[r][p.x] == c
    ensures Ascending(RowAntennas(g, r, j))
    decreases j
  {
    if j > 0 {
      RowAntennasIn(g, r, j - 1);
      var c := g.rows[r][j - 1];
      if c != '.' {
        AscendingAppend(RowAntennas(g, r, j - 1), [(c, g.ConvertCoordsReadable((r, j - 1)))]);
      }
    }
  }

  lemma {:induction false} AntennasUpToIn(g: Grid<char>, r: int)
    requires 0 <= r <= |g.rows|
    ensures forall c, p :: (c, p) in AntennasUpTo(g, r) <==>
      c != '.' && g.Indexable(p) && |g.rows| - 1 - p.y < r && g.AccessGrid(p) == c
    ensures Ascending(AntennasUpTo(g, r))
    ensures forall x :: x in AntennasUpTo(g, r) ==> x.1.y > |g.rows| - 1 - r
    decreases r
  {
    if r > 0 {
      AntennasUpToIn(g, r - 1);
      RowAntennasIn(g, r - 1, |g.rows[r - 1]|);
      AscendingAppend(AntennasUpTo(g, r - 1), RowAntennas(g, r - 1, |g.rows[r - 1]|));
    }
  }

  /** The antennas met are exactly the cells that are not `.`, each with its readable point. */
  lemma AntennasIn(g: Grid<char>, c: char, p: Point2D)
    ensures (c, p) in Antennas(g) <==> c != '.' && g.Indexable(p) && g.AccessGrid(p) == c
  {
    AntennasUpToIn(g, |g.rows|);
  }

  /** `entry(c).or_insert_with(Vec::new).push(p)`. */
  function Push(m: map<char, seq<Point2D>>, c: char, p: Point2D): map<char, seq<Point2D>> {
    m[c := (if c in m then m[c] else []) + [p]]
  }

  /** A table after pushing the cells in order. */
  function Record(m: map<char, seq<Point2D>>, cells: seq<(char, Point2D)>): map<char, seq<Point2D>>
    decreases |cells|
  {
    if cells == [] then m
    else
      var (c, p) := cells[|cells| - 1];
      Push(Record(m, cells[..|cells| - 1]), c, p)
  }

  /** Recording one more cell pushes its point under its frequency. */
  lemma RecordSnoc(m: map<char, seq<Point2D>>, cells: seq<(char, Point2D)>, c: char, p: Point2D)
    ensures Record(m, cells + [(c, p)]) == Push(Record(m, cells), c, p)
  {
    assert (cells + [(c, p)])[..|cells|] == cells;
  }

  /** After recording, `p` is listed under `c` exactly when it was before or the cells hold `(c, p)`. */
  lemma {:induction false} RecordContents(m: map<char, seq<Point2D>>, cells: seq<(char, Point2D)>)
    ensures forall c :: c in Record(m, cells) <==> c in m || exists p :: (c, p) in cells
    ensures forall c, p :: c in Record(m, cells) && p in Record(m, cells)[c] <==> (c in m && p in m[c]) || (c, p) in cells
    decreases |cells|
  {
    if cells != [] {
      var n := |cells| - 1;
      RecordContents(m, cells[..n]);
      assert cells == cells[..n] + [cells[n]];
      assert forall x :: x in cells <==> x in cells[..n] || x == cells[n];
      var prev := Record(m, cells[..n]);
      var (c0, p0) := cells[n];
      assert Record(m, cells) == Push(prev, c0, p0);
      forall c ensures c in Record(m, cells) <==> c in m || exists p :: (c, p) in cells {
        if c == c0 {
          assert (c0, p0) in cells;
        } else if exists p :: (c, p) in cells {
          var p :| (c, p) in cells;
          assert (c, p) in cells[..n];
        }
      }
      forall c, p ensures c in Record(m, cells) && p in Record(m, cells)[c] <==> (c in m && p in m[c]) || (c, p) in cells {
        if c == c0 {
          assert Record(m, cells)[c] == (if c in prev then prev[c] else []) + [p0];
        }
      }
    }
  }

  /** Recording two runs of cells is recording the first, then the second. */
  lemma {:induction false} RecordAppend(m: map<char, seq<Point2D>>, xs: seq<(char, Point2D)>, ys: seq<(char, Point2D)>)
    ensures Record(m, xs + ys) == Record(Record(m, xs), ys)
    decreases |ys|
  {
    if ys == [] {
      assert xs + ys == xs;
    } else {
      var n := |ys| - 1;
      RecordAppend(m, xs, ys[..n]);
      assert (xs + ys)[..|xs + ys| - 1] == xs + ys[..n];
    }
  }

  /** Cells met in strictly ascending order, recorded into an empty table, give lists without duplicates. */
  lemma {:induction false} RecordDistinct(cells: seq<(char, Point2D)>)
    requires Ascending(cells)
    ensures DistinctLists(Record(map[], cells))
    decreases |cells|
  {
    if cells != [] {
      var n := |cells| - 1;
      var (c, p) := cells[n];
      var prev := Record(map[], cells[..n]);
      RecordDistinct(cells[..n]);
      RecordContents(map[], cells[..n]);
      forall k | 0 <= k < n ensures cells[..n][k] != (c, p) {
        assert Before(cells[k].1, cells[n].1);
      }
      assert (c, p) !in cells[..n];
      assert !(c in prev && p in prev[c]);
      var l := if c in prev then prev[c] else [];
      assert Record(map[], cells)[c] == l + [p];
    }
  }

  /** The table `initialise_antennae` builds from an empty one. */
  function Table(g: Grid<char>): (r: map<char, seq<Point2D>>)
    ensures DistinctLists(r)
  {
    AntennasUpToIn(g, |g.rows|);
    RecordDistinct(Antennas(g));
    Record(map[], Antennas(g))
  }

  /** After `initialise_antennae`, `Table(g)[c]` lists exactly the readable points of the cells holding `c`, each once, for every `c` other than `.`. */
  lemma TableMeaning(g: Grid<char>, c: char, p: Point2D)
    ensures c in Table(g) && p in Table(g)[c] <==> c != '.' && g.Indexable(p) && g.AccessGrid(p) == c
    ensures '.' !in Table(g)
  {
    RecordContents(map[], Antennas(g));
    AntennasIn(g, c, p);
    AntennasUpToIn(g, |g.rows|);
  }

  /** The antenna grid: the characters, and the readable points of each frequency. */
  class AntennaGrid {
    var grid: Grid<char>
    var antennae: map<char, seq<Point2D>>

    /** `AntennaGrid::new`: the grid of the input's characters and an empty table. */
    constructor New(input: string)
      ensures grid == Grid.New(input, CharCell) && antennae == map[]
    {
      CharsParse(input);
      grid := Grid.New(input, CharCell);
      antennae := map[];
    }

    /** `initialise_antennae`: push the readable point of every cell that is not `.` under its character, row by row. */
    method InitialiseAntennae()
      modifies this
      ensures grid == old(grid)
      ensures antennae == Record(old(antennae), Antennas(grid))
    {
      var rows := grid.Iter();
      for i := 0 to |rows|
        invariant grid == old(grid)
        invariant antennae == Record(old(antennae), AntennasUpTo(grid, i))
      {
        InitialiseRow(i);
        RecordAppend(old(antennae), AntennasUpTo(grid, i), RowAntennas(grid, i, |grid.rows[i]|));
      }
    }

    /** One row of `initialise_antennae`. */
    method InitialiseRow(i: int)
      requires 0 <= i < |grid.rows|
      modifies this
      ensures grid == old(grid)
      ensures antennae == Record(old(antennae), RowAntennas(grid, i, |grid.rows[i]|))
    {
      var line := grid.Iter()[i];
      for j := 0 to |line|
        invariant grid == old(grid)
        invariant antennae == Record(old(antennae), RowAntennas(grid, i, j))
      {
        var c := line[j];
        if c == '.' {
          assert RowAntennas(grid, i, j + 1) == RowAntennas(grid, i, j);
          continue;
        }
        var newCoords := grid.ConvertCoordsReadable((i, j));
        RecordSnoc(old(antennae), RowAntennas(grid, i, j), c, newCoords);
        antennae := antennae[c := (if c in antennae then antennae[c] else []) + [newCoords]];
      }
    }

    /** The loop of `find_anti_nodes`: step from `b + (b - a)` along `b - a` while on the grid. */
    method FindAntiNodes(first: Point2D, second: Point2D) returns (results: seq<Point2D>)
      requires grid.NonEmpty() && (first != second || !grid.InBounds(second))
      ensures results == AntiNodeRay(grid, first, second)
    {
      results := [];
      var antiNodeDiff := Sub(second, first);
      var antiNode := Add(second, antiNodeDiff);
      while grid.InBounds(antiNode)
        invariant antiNodeDiff != Zero || !grid.InBounds(antiNode)
        invariant AntiNodeRay(grid, first, second) == results + Ray(grid, antiNode, antiNodeDiff)
        decreases Budget(grid, antiNode, antiNodeDiff)
      {
        results := results + [antiNode];
        antiNode := Add(antiNode, antiNodeDiff);
      }
    }

    /** The pair loops of `count_anti_nodes` for one frequency: add each unseen in-bounds anti-node. */
    method CollectAntiNodes(l: seq<Point2D>, seen: seq<Point2D>) returns (seen': seq<Point2D>)
      requires grid.NonEmpty() && NoDups(seen)
      ensures NoDups(seen') && Elems(seen') == Elems(seen) + PairNodes(grid, l)
    {
      seen' := seen;
      for i := 0 to |l|
        invariant NoDups(seen') && Elems(seen') == Elems(seen) + PairNodesUpTo(grid, l, i, 0)
      {
        seen' := CollectAntiNodesFrom(l, i, seen');
      }
    }

    /** The inner loop of `count_anti_nodes`: the pairs whose first antenna is `l[i]`. */
    method CollectAntiNodesFrom(l: seq<Point2D>, i: int, seen: seq<Point2D>) returns (seen': seq<Point2D>)
      requires grid.NonEmpty() && NoDups(seen) && 0 <= i < |l|
      requires PairNodesUpTo(grid, l, i, 0) <= Elems(seen)
      ensures NoDups(seen') && Elems(seen') == Elems(seen) + PairNodesUpTo(grid, l, i + 1, 0)
    {
      seen' := seen;
      for j := 0 to |l|
        invariant NoDups(seen') && Elems(seen') == Elems(seen) + PairNodesUpTo(grid, l, i, j)
      {
        PairNodesStep(grid, l, i, j);
        if i == j {
          continue;
        }
        var antiNode := FindAntiNode(l[i], l[j]);
        if grid.InBounds(antiNode) && antiNode !in seen' {
          seen' := Append(seen', antiNode);
        } else if grid.InBounds(antiNode) {
          assert antiNode in Elems(seen');
        }
      }
      PairNodesRow(grid, l, i);
    }

    /** `count_anti_nodes`: the number of distinct in-bounds anti-nodes, whatever order the frequencies are visited in. */
    method CountAntiNodes() returns (count: int)
      requires Countable(grid, antennae)
      ensures count == |AntiNodes(grid, antennae)|
    {
      var seen: seq<Point2D> := [];
      var keys := antennae.Keys;
      while keys != {}
        invariant keys <= antennae.Keys
        invariant NoDups(seen) && Elems(seen) == AntiNodesOf(grid, antennae, antennae.Keys - keys)
        decreases |keys|
      {
        var antenna :| antenna in keys;
        AntiNodesOfStep(grid, antennae, antennae.Keys - keys, antenna);
        assert antennae.Keys - (keys - {antenna}) == (antennae.Keys - keys) + {antenna};
        seen := CollectAntiNodes(antennae[antenna], seen);
        keys := keys - {antenna};
      }
      assert antennae.Keys - keys == antennae.Keys;
      DistinctCard(seen);
      count := |seen|;
    }

    /** The pair loops of `count_resonant_anti_nodes` for one frequency: add each unseen point of each line. */
    method CollectResonantNodes(l: seq<Point2D>, seen: seq<Point2D>) returns (seen': seq<Point2D>)
      requires grid.NonEmpty() && NoDups(l) && NoDups(seen)
      ensures NoDups(seen') && Elems(seen') == Elems(seen) + RayNodesUpTo(grid, l, |l|, 0)
    {
      seen' := seen;
      for i := 0 to |l|
        invariant NoDups(seen') && Elems(seen') == Elems(seen) + RayNodesUpTo(grid, l, i, 0)
      {
        for j := 0 to |l|
          invariant NoDups(seen') && Elems(seen') == Elems(seen) + RayNodesUpTo(grid, l, i, j)
        {
          RayNodesStep(grid, l, i, j);
          if i == j {
            continue;
          }
          var antiNodes := FindAntiNodes(l[i], l[j]);
          seen' := AddUnseen(antiNodes, seen');
        }
        RayNodesRow(grid, l, i);
      }
    }

    /** `count_resonant_anti_nodes`: the number of distinct points that are antennas of a shared frequency or on a line of a pair. */
    method CountResonantAntiNodes() returns (count: int)
      requires Countable(grid, antennae) && DistinctLists(antennae)
      ensures count == |ResonantAntiNodes(grid, antennae)|
    {
      var seen: seq<Point2D> := [];
      var keys := antennae.Keys;
      while keys != {}
        invariant keys <= antennae.Keys
        invariant NoDups(seen) && Elems(seen) == ResonantNodesOf(grid, antennae, antennae.Keys - keys)
        decreases |keys|
      {
        var antenna :| antenna in keys;
        var antennaLocations := antennae[antenna];
        ResonantNodesOfStep(grid, antennae, antennae.Keys - keys, antenna);
        assert antennae.Keys - (keys - {antenna}) == (antennae.Keys - keys) + {antenna};
        ghost var before := Elems(seen);
        if |antennaLocations| > 1 {
          seen := AddUnseen(antennaLocations, seen);
        }
        seen := CollectResonantNodes(antennaLocations, seen);
        assert Elems(seen) == before + ResonantNodes(grid, antennaLocations);
        keys := keys - {antenna};
      }
      assert antennae.Keys - keys == antennae.Keys;
      DistinctCard(seen);
      count := |seen|;
    }
  }

  /** The contains-before-push loop: append each item not yet seen, so `seen` never holds a duplicate. */
  method AddUnseen(items: seq<Point2D>, seen: seq<Point2D>) returns (seen': seq<Point2D>)
    requires NoDups(seen)
    ensures NoDups(seen') && Elems(seen') == Elems(seen) + Elems(items)
  {
    seen' := seen;
    for k := 0 to |items|
      invariant NoDups(seen') && Elems(seen') == Elems(seen) + Elems(items[..k])
    {
      assert Elems(items[..k + 1]) == Elems(items[..k]) + {items[k]} by {
        assert items[..k + 1] == items[..k] + [items[k]];
      }
      if items[k] !in seen' {
        seen' := Append(seen', items[k]);
      }
    }
    assert items[..|items|] == items;
  }

  /** Pushing an item that is not yet listed keeps the list free of duplicates and adds it to the set. */
  method Append(seen: seq<Point2D>, x: Point2D) returns (seen': seq<Point2D>)
    requires NoDups(seen) && x !in seen
    ensures seen' == seen + [x]
    ensures NoDups(seen') && Elems(seen') == Elems(seen) + {x}
  {
    seen' := seen + [x];
    assert forall a :: 0 <= a < |seen| ==> seen'[a] == seen[a];
  }

  lemma PairNodesStep(g: Grid<char>, l: seq<Point2D>, i: int, j: int)
    requires g.NonEmpty() && 0 <= i < |l| && 0 <= j < |l|
    ensures PairNodesUpTo(g, l, i, j + 1) == PairNodesUpTo(g, l, i, j)
      + (if i != j && g.InBounds(FindAntiNode(l[i], l[j])) then {FindAntiNode(l[i], l[j])} else {})
  {
  }

  lemma PairNodesRow(g: Grid<char>, l: seq<Point2D>, i: int)
    requires g.NonEmpty() && 0 <= i < |l|
    ensures PairNodesUpTo(g, l, i, |l|) == PairNodesUpTo(g, l, i + 1, 0)
  {
  }

  lemma RayNodesStep(g: Grid<char>, l: seq<Point2D>, i: int, j: int)
    requires g.NonEmpty() && NoDups(l) && 0 <= i < |l| && 0 <= j < |l|
    ensures RayNodesUpTo(g, l, i, j + 1) == RayNodesUpTo(g, l, i, j)
      + (if i != j then Elems(AntiNodeRay(g, l[i], l[j])) else {})
  {
  }

  lemma RayNodesRow(g: Grid<char>, l: seq<Point2D>, i: int)
    requires g.NonEmpty() && NoDups(l) && 0 <= i < |l|
    ensures RayNodesUpTo(g, l, i, |l|) == RayNodesUpTo(g, l, i + 1, 0)
  {
  }

  lemma AntiNodesOfStep(g: Grid<char>, m: map<char, seq<Point2D>>, keys: set<char>, k: char)
    requires Countable(g, m) && k in m
    ensures AntiNodesOf(g, m, keys + {k}) == AntiNodesOf(g, m, keys) + PairNodes(g, m[k])
  {
  }

  lemma ResonantNodesOfStep(g: Grid<char>, m: map<char, seq<Point2D>>, keys: set<char>, k: char)
    requires Countable(g, m) && DistinctLists(m) && k in m
    ensures ResonantNodesOf(g, m, keys + {k}) == ResonantNodesOf(g, m, keys) + ResonantNodes(g, m[k])
  {
  }

  /** `solution_one`: build the grid, record the antennas, count the anti-nodes. */
  method SolutionOne(input: string) returns (count: int)
    requires Countable(Grid.New(input, CharCell), Table(Grid.New(input, CharCell)))
    ensures count == |AntiNodes(Grid.New(input, CharCell), Table(Grid.New(input, CharCell)))|
  {
    var antennaGrid := new AntennaGrid.New(input);
    antennaGrid.InitialiseAntennae();
    count := antennaGrid.CountAntiNodes();
  }

  /** `solution_two`: the same with the resonant count. */
  method SolutionTwo(input: string) returns (count: int)
    requires Countable(Grid.New(input, CharCell), Table(Grid.New(input, CharCell)))
    ensures count == |ResonantAntiNodes(Grid.New(input, CharCell), Table(Grid.New(input, CharCell)))|
  {
    var antennaGrid := new AntennaGrid.New(input);
    antennaGrid.InitialiseAntennae();
    count := antennaGrid.CountResonantAntiNodes();
  }
}
