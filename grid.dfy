/**
 * The character grid of a maze map (one string per text line, indexed
 * `g[y][x]`), the cell classes the depth-first search distinguishes, and the
 * notions its specification is stated in: 4-connected reachability, the frame
 * of what a search may write, and the "closed" shape of a failed search.
 */
module Grid {

  type Grid = seq<string>

  type Cell = (int, int)  // (x, y): column, then row

  /** Every row is as long as the first one. */
  predicate Rectangular(g: Grid) {
    |g| > 0 && forall y :: 0 <= y < |g| ==> |g[y]| == |g[0]|
  }

  predicate InBounds(g: Grid, x: int, y: int) {
    0 <= y < |g| && 0 <= x < |g[y]|
  }

  predicate OnBorder(g: Grid, x: int, y: int)
    requires InBounds(g, x, y)
  {
    x == 0 || y == 0 || x == |g[y]| - 1 || y == |g| - 1
  }

  /** A rectangular grid whose outermost ring of cells is all wall. */
  ghost predicate Walled(g: Grid) {
    Rectangular(g) &&
    forall y, x {:trigger g[y][x]} :: InBounds(g, x, y) && OnBorder(g, x, y) ==> g[y][x] == '#'
  }

  /** Cells the search refuses to enter: wall, path mark, visited mark. */
  predicate Blocked(c: char) {
    c == '#' || c == '*' || c == 'v'
  }

  predicate Passable(c: char) {
    !Blocked(c)
  }

  /** Passable cells other than the exit: the ones the search overwrites. */
  predicate Open(c: char) {
    Passable(c) && c != 'E'
  }

  /** The grid with cell (x, y) overwritten by the visited mark. */
  function Mark(g: Grid, x: int, y: int): (h: Grid)
    requires InBounds(g, x, y)
    ensures |h| == |g| && forall j :: 0 <= j < |g| ==> |h[j]| == |g[j]|
    ensures h[y][x] == 'v'
    ensures forall j, i {:trigger h[j][i]} :: InBounds(g, i, j) && (i, j) != (x, y) ==> h[j][i] == g[j][i]
    ensures Walled(g) && g[y][x] != '#' ==> Walled(h)
  {
    g[y := g[y][x := 'v']]
  }

  predicate SameShape(g: Grid, h: Grid) {
    |h| == |g| && forall y :: 0 <= y < |g| ==> |h[y]| == |g[y]|
  }

  /**
   * The only way a search changes the grid: same shape, and each cell either
   * keeps its symbol or was open and now carries the visited mark.
   */
  ghost predicate Evolves(g: Grid, h: Grid) {
    SameShape(g, h) &&
    forall y, x {:trigger h[y][x]} {:trigger g[y][x]} ::
      InBounds(g, x, y) ==> h[y][x] == g[y][x] || (Open(g[y][x]) && h[y][x] == 'v')
  }

  /** The open cells still left: the termination measure of the search. */
  ghost function OpenCells(g: Grid): set<Cell> {
    set y, x | 0 <= y < |g| && 0 <= x < |g[y]| && Open(g[y][x]) :: (x, y)
  }

  /** Cells whose symbol differs between g and h. */
  ghost function ChangedCells(g: Grid, h: Grid): set<Cell>
    requires SameShape(g, h)
  {
    set y, x | 0 <= y < |g| && 0 <= x < |g[y]| && h[y][x] != g[y][x] :: (x, y)
  }

  /** Out of the grid, or a symbol the search refuses. */
  ghost predicate BlockedAt(h: Grid, x: int, y: int) {
    InBounds(h, x, y) ==> Blocked(h[y][x])
  }

  /** All four neighbours of (x, y) are refused by the search in h. */
  ghost predicate Surrounded(h: Grid, x: int, y: int) {
    BlockedAt(h, x + 1, y) && BlockedAt(h, x - 1, y) &&
    BlockedAt(h, x, y + 1) && BlockedAt(h, x, y - 1)
  }

  /**
   * What a failed search leaves behind: every cell it changed is fenced in,
   * i.e. no neighbour of a changed cell could still be entered.
   */
  ghost predicate Closed(g: Grid, h: Grid)
    requires SameShape(g, h)
  {
    forall y, x {:trigger h[y][x]} {:trigger g[y][x]} ::
      InBounds(g, x, y) && h[y][x] != g[y][x] ==> Surrounded(h, x, y)
  }

  ghost predicate Adjacent(a: Cell, b: Cell) {
    (a.1 == b.1 && (a.0 - b.0 == 1 || b.0 - a.0 == 1)) ||
    (a.0 == b.0 && (a.1 - b.1 == 1 || b.1 - a.1 == 1))
  }

  ghost predicate PassableAt(g: Grid, c: Cell) {
    InBounds(g, c.0, c.1) && Passable(g[c.1][c.0])
  }

  /** A non-empty 4-connected sequence of passable cells. */
  ghost predicate IsWalk(g: Grid, w: seq<Cell>) {
    |w| > 0 &&
    (forall i :: 0 <= i < |w| ==> PassableAt(g, w[i])) &&
    (forall i :: 0 < i < |w| ==> Adjacent(w[i - 1], w[i]))
  }

  ghost predicate Reachable(g: Grid, a: Cell, b: Cell) {
    exists w :: IsWalk(g, w) && w[0] == a && w[|w| - 1] == b
  }

  /** Some exit cell can be reached from (x, y) through passable cells. */
  ghost predicate ReachesExit(g: Grid, x: int, y: int) {
    exists b: Cell {:trigger Reachable(g, (x, y), b)} ::
      InBounds(g, b.0, b.1) && g[b.1][b.0] == 'E' && Reachable(g, (x, y), b)
  }

  /** The cells strictly inside the border of a columns-by-rows grid. */
  ghost function Interior(columns: int, rows: int): set<Cell> {
    set x, y | 1 <= x < columns - 1 && 1 <= y < rows - 1 :: (x, y)
  }

  ghost function RowInterior(columns: int, y: int): set<Cell> {
    set x | 1 <= x < columns - 1 :: (x, y)
  }

  lemma {:induction false} RowInteriorSize(columns: int, y: int)
    requires columns >= 2
    ensures |RowInterior(columns, y)| == columns - 2
    decreases columns
  {
    if columns > 2 {
      RowInteriorSize(columns - 1, y);
      assert RowInterior(columns, y) == RowInterior(columns - 1, y) + {(columns - 2, y)};
    } else {
      assert RowInterior(columns, y) == {};
    }
  }

  /** A columns-by-rows grid has (columns - 2) * (rows - 2) interior cells. */
  lemma {:induction false} InteriorSize(columns: int, rows: int)
    requires columns >= 2 && rows >= 2
    ensures |Interior(columns, rows)| == (columns - 2) * (rows - 2)
    decreases rows
  {
    if rows > 2 {
      var top, last := Interior(columns, rows - 1), RowInterior(columns, rows - 2);
      InteriorSize(columns, rows - 1);
      RowInteriorSize(columns, rows - 2);
      InteriorSplit(columns, rows);
      assert |top + last| == |top| + |last|;
      MulStep(columns - 2, rows - 3);
    } else {
      assert Interior(columns, rows) == {};
    }
  }

  /** The interior of one more row is the old interior plus that row's interior. */
  lemma InteriorSplit(columns: int, rows: int)
    requires rows > 2
    ensures Interior(columns, rows) == Interior(columns, rows - 1) + RowInterior(columns, rows - 2)
    ensures Interior(columns, rows - 1) !! RowInterior(columns, rows - 2)
  {
  }

  lemma MulStep(a: int, b: int)
    ensures a * b + a == a * (b + 1)
  {
  }

  /** A subset is no larger than its superset. */
  lemma {:induction false} SubsetSize<T>(a: set<T>, b: set<T>)
    requires a <= b
    ensures |a| <= |b|
    decreases |b|
  {
    if a != {} {
      var e :| e in a;
      SubsetSize(a - {e}, b - {e});
    }
  }

  /** In a walled grid, only interior cells can be open. */
  lemma OpenCellsInterior(g: Grid)
    requires Walled(g)
    ensures OpenCells(g) <= Interior(|g[0]|, |g|)
  {
    forall c | c in OpenCells(g) ensures c in Interior(|g[0]|, |g|) {
      var x, y := c.0, c.1;
      assert InBounds(g, x, y) && Open(g[y][x]);
      assert !OnBorder(g, x, y);
    }
  }

  /** A search step never adds open cells. */
  lemma EvolvesShrinks(g: Grid, h: Grid)
    requires Evolves(g, h)
    ensures OpenCells(h) <= OpenCells(g)
    ensures ChangedCells(g, h) <= OpenCells(g)
  {
  }

  /** Marking an open cell removes exactly that cell from the open set. */
  lemma MarkShrinks(g: Grid, x: int, y: int)
    requires InBounds(g, x, y) && Open(g[y][x])
    ensures Evolves(g, Mark(g, x, y))
    ensures OpenCells(Mark(g, x, y)) == OpenCells(g) - {(x, y)}
  {
  }

  lemma EvolvesTransitive(g: Grid, h: Grid, k: Grid)
    requires Evolves(g, h) && Evolves(h, k)
    ensures Evolves(g, k)
  {
  }

  /** Every '#', '*', 'v' and 'E' survives any number of search steps. */
  lemma EvolvesKeepsFixed(g: Grid, h: Grid)
    requires Evolves(g, h)
    ensures forall y, x :: InBounds(g, x, y) && !Open(g[y][x]) ==> h[y][x] == g[y][x]
    ensures forall y, x :: InBounds(g, x, y) && h[y][x] != g[y][x] ==> h[y][x] == 'v'
  {
  }

  lemma EvolvesWalled(g: Grid, h: Grid)
    requires Walled(g) && Evolves(g, h)
    ensures Walled(h)
  {
    assert |h[0]| == |g[0]|;
    forall y, x | InBounds(h, x, y) && OnBorder(h, x, y) ensures h[y][x] == '#' {
      assert InBounds(g, x, y) && OnBorder(g, x, y);
    }
  }

  /** A blocked cell stays blocked, so a fenced-in cell stays fenced in. */
  lemma SurroundedPersists(h: Grid, k: Grid, x: int, y: int)
    requires Evolves(h, k) && Surrounded(h, x, y)
    ensures Surrounded(k, x, y)
  {
  }

  lemma BlockedPersists(h: Grid, k: Grid, x: int, y: int)
    requires Evolves(h, k) && BlockedAt(h, x, y)
    ensures BlockedAt(k, x, y)
  {
  }

  /** Two failed searches one after the other leave a closed grid. */
  lemma ClosedTransitive(g: Grid, h: Grid, k: Grid)
    requires Evolves(g, h) && Evolves(h, k)
    requires Closed(g, h) && Closed(h, k)
    ensures Closed(g, k)
  {
    forall y, x | InBounds(g, x, y) && k[y][x] != g[y][x] ensures Surrounded(k, x, y) {
      if h[y][x] != g[y][x] {
        SurroundedPersists(h, k, x, y);
      } else {
        assert InBounds(h, x, y) && k[y][x] != h[y][x];
      }
    }
  }

  /**
   * Marking (x, y) and then failing from its neighbours leaves a closed grid,
   * provided (x, y) ended up fenced in as well.
   */
  lemma ClosedAfterMark(g: Grid, x: int, y: int, k: Grid)
    requires InBounds(g, x, y) && Open(g[y][x])
    requires Evolves(Mark(g, x, y), k) && Closed(Mark(g, x, y), k)
    requires Surrounded(k, x, y)
    ensures SameShape(g, k) && Closed(g, k)
  {
    var h := Mark(g, x, y);
    forall j, i | InBounds(g, i, j) && k[j][i] != g[j][i] ensures Surrounded(k, i, j) {
      if (i, j) != (x, y) {
        assert h[j][i] == g[j][i];
        assert InBounds(h, i, j);
      }
    }
  }

  /** Walks in a grid that has evolved are walks in the earlier grid. */
  lemma WalkBackward(g: Grid, h: Grid, w: seq<Cell>)
    requires Evolves(g, h) && IsWalk(h, w)
    ensures IsWalk(g, w)
  {
    forall i | 0 <= i < |w| ensures PassableAt(g, w[i]) {
      assert PassableAt(h, w[i]);
    }
  }

  /** Exits found after some search steps were already reachable before them. */
  lemma ExitBackward(g: Grid, h: Grid, x: int, y: int)
    requires Evolves(g, h) && ReachesExit(h, x, y)
    ensures ReachesExit(g, x, y)
  {
    var b: Cell :| InBounds(h, b.0, b.1) && h[b.1][b.0] == 'E' && Reachable(h, (x, y), b);
    var w :| IsWalk(h, w) && w[0] == (x, y) && w[|w| - 1] == b;
    WalkBackward(g, h, w);
    assert g[b.1][b.0] == 'E';
    assert Reachable(g, (x, y), b);
  }

  /** An exit reachable from a neighbour is reachable from a passable cell. */
  lemma ExitThroughNeighbour(g: Grid, x: int, y: int, n: Cell)
    requires PassableAt(g, (x, y)) && Adjacent((x, y), n) && ReachesExit(g, n.0, n.1)
    ensures ReachesExit(g, x, y)
  {
    var b: Cell :| InBounds(g, b.0, b.1) && g[b.1][b.0] == 'E' && Reachable(g, n, b);
    var w :| IsWalk(g, w) && w[0] == n && w[|w| - 1] == b;
    var w' := [(x, y)] + w;
    assert forall i :: 0 < i < |w'| ==> w'[i] == w[i - 1];
    assert IsWalk(g, w');
    assert Reachable(g, (x, y), b);
  }

  lemma ExitHere(g: Grid, x: int, y: int)
    requires InBounds(g, x, y) && g[y][x] == 'E'
    ensures ReachesExit(g, x, y)
  {
    assert IsWalk(g, [(x, y)]);
    assert Reachable(g, (x, y), (x, y));
  }

  /**
   * After a closed evolution in which the walk's first cell became blocked,
   * every cell of a walk of the original grid carries the visited mark.
   */
  lemma {:induction false} ClosedCoversWalk(g: Grid, h: Grid, w: seq<Cell>)
    requires Evolves(g, h) && Closed(g, h) && IsWalk(g, w)
    requires BlockedAt(h, w[0].0, w[0].1)
    ensures forall i :: 0 <= i < |w| ==> h[w[i].1][w[i].0] == 'v' && g[w[i].1][w[i].0] != 'v'
    decreases |w|
  {
    if |w| == 1 {
      assert PassableAt(g, w[0]);
    } else {
      var v := w[..|w| - 1];
      assert forall i :: 0 <= i < |v| ==> v[i] == w[i];
      assert IsWalk(g, v);
      ClosedCoversWalk(g, h, v);
      var a, b := w[|w| - 2], w[|w| - 1];
      assert v[|v| - 1] == a;
      assert Adjacent(a, b);
      assert Surrounded(h, a.0, a.1);
      assert PassableAt(g, b);
      assert BlockedAt(h, b.0, b.1);
    }
  }

  /**
   * After a closed evolution that blocked (x, y), no exit was reachable from
   * (x, y), and every cell that was reachable now carries the visited mark.
   */
  lemma ClosedCoversReach(g: Grid, h: Grid, x: int, y: int)
    requires Evolves(g, h) && Closed(g, h) && BlockedAt(h, x, y)
    ensures !ReachesExit(g, x, y)
    ensures forall b: Cell :: InBounds(g, b.0, b.1) && Reachable(g, (x, y), b) ==> h[b.1][b.0] == 'v'
  {
    forall b: Cell | InBounds(g, b.0, b.1) && Reachable(g, (x, y), b)
      ensures h[b.1][b.0] == 'v' && g[b.1][b.0] != 'E'
    {
      var w :| IsWalk(g, w) && w[0] == (x, y) && w[|w| - 1] == b;
      ClosedCoversWalk(g, h, w);
    }
  }
}
