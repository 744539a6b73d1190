/**
 * The two algorithms of the path finder, both working on a Map object: the
 * scan for the start symbol and the recursive depth-first flood search that
 * marks the cells it enters with 'v'.
 */
module Algos {
  import opened Grid
  import opened Maze

  /** Is (x, y) a start symbol inside the NUM_COLUMNS by NUM_ROWS scan area? */
  ghost predicate StartIn(m: Map, x: int, y: int)
    reads m
  {
    0 <= x < m.numColumns && 0 <= y < m.numRows && InBounds(m.grid, x, y) && m.grid[y][x] == 'S'
  }

  /** Does (x', y') come before (x, y) in the column-by-column scan order? */
  predicate ScannedBefore(x': int, y': int, x: int, y: int) {
    x' < x || (x' == x && y' < y)
  }

  /**
   * Records in startX/startY the first 'S' met scanning column by column
   * (x outer, y inner); leaves them alone when there is none. The matrix is
   * only read.
   */
  method FindStart(m: Map)
    requires m.Valid()
    requires forall y :: 0 <= y < m.numRows ==> m.numColumns <= |m.grid[y]|
    modifies m`startX, m`startY
    ensures (exists x, y :: StartIn(m, x, y)) ==>
      StartIn(m, m.startX, m.startY) &&
      forall x, y :: StartIn(m, x, y) ==> !ScannedBefore(x, y, m.startX, m.startY)
    ensures (forall x, y :: !StartIn(m, x, y)) ==>
      m.startX == old(m.startX) && m.startY == old(m.startY)
  {
    var x := 0;
    while x < m.numColumns
      invariant 0 <= x <= m.numColumns
      invariant forall x', y' :: StartIn(m, x', y') ==> x' >= x
    {
      var y := 0;
      while y < m.numRows
        invariant 0 <= y <= m.numRows
        invariant forall x', y' :: StartIn(m, x', y') ==> !ScannedBefore(x', y', x, y)
      {
        if m.grid[y][x] == 'S' {
          m.startX := x;
          m.startY := y;
          assert StartIn(m, x, y);
          return;
        }
        y := y + 1;
      }
      x := x + 1;
    }
  }

  /** What a search returns together with the grid it leaves behind. */
  datatype Outcome = Outcome(found: bool, grid: Grid)

  /** The k-th neighbour in the search order: east, west, south, north. */
  function Neighbour(x: int, y: int, k: int): (n: Cell)
    requires 0 <= k < 4
    ensures Adjacent((x, y), n)
  {
    if k == 0 then (x + 1, y)
    else if k == 1 then (x - 1, y)
    else if k == 2 then (x, y + 1)
    else (x, y - 1)
  }

  /**
   * The depth-first search as a function of the grid: refuse '#', '*' and
   * 'v'; succeed on 'E'; otherwise mark the cell 'v' and go on to its
   * neighbours.
   */
  function Explore(g: Grid, x: int, y: int): (r: Outcome)
    requires Walled(g) && InBounds(g, x, y)
    ensures Evolves(g, r.grid) && Walled(r.grid)
    ensures Open(g[y][x]) ==> r.grid[y][x] == 'v'
    decreases OpenCells(g), 0
  {
    var c := g[y][x];
    if Blocked(c) then Outcome(false, g)
    else if c == 'E' then Outcome(true, g)
    else
      MarkShrinks(g, x, y);
      TryNeighbours(Mark(g, x, y), x, y, 0)
  }

  /**
   * Explores the neighbours of the interior cell (x, y) from the k-th on, in
   * the search order, each on the grid the previous one left behind, and
   * stops at the first that reaches an exit.
   */
  function TryNeighbours(h: Grid, x: int, y: int, k: int): (r: Outcome)
    requires Walled(h) && InBounds(h, x, y) && !OnBorder(h, x, y) && 0 <= k <= 4
    ensures Evolves(h, r.grid) && Walled(r.grid)
    decreases OpenCells(h), 5 - k
  {
    if k == 4 then Outcome(false, h)
    else
      var n := Neighbour(x, y, k);
      var e := Explore(h, n.0, n.1);
      if e.found then e
      else
        EvolvesShrinks(h, e.grid);
        EvolvesTransitive(h, e.grid, TryNeighbours(e.grid, x, y, k + 1).grid);
        TryNeighbours(e.grid, x, y, k + 1)
  }

  /** An exit can be reached from one of the four neighbours of (x, y). */
  ghost predicate ExitBeside(h: Grid, x: int, y: int) {
    exists k :: 0 <= k < 4 && ReachesExit(h, Neighbour(x, y, k).0, Neighbour(x, y, k).1)
  }

  /** Success is sound: an exit really is reachable from the starting cell. */
  lemma {:induction false} ExploreSound(g: Grid, x: int, y: int)
    requires Walled(g) && InBounds(g, x, y)
    ensures Explore(g, x, y).found ==> ReachesExit(g, x, y)
    decreases OpenCells(g), 0
  {
    var c := g[y][x];
    if c == 'E' {
      ExitHere(g, x, y);
    } else if Open(c) {
      var g0 := Mark(g, x, y);
      MarkShrinks(g, x, y);
      TryNeighboursSound(g0, x, y, 0);
      if Explore(g, x, y).found {
        var k :| 0 <= k < 4 && ReachesExit(g0, Neighbour(x, y, k).0, Neighbour(x, y, k).1);
        ExitBackward(g, g0, Neighbour(x, y, k).0, Neighbour(x, y, k).1);
        ExitThroughNeighbour(g, x, y, Neighbour(x, y, k));
      }
    }
  }

  lemma {:induction false} TryNeighboursSound(h: Grid, x: int, y: int, k: int)
    requires Walled(h) && InBounds(h, x, y) && !OnBorder(h, x, y) && 0 <= k <= 4
    ensures TryNeighbours(h, x, y, k).found ==> ExitBeside(h, x, y)
    decreases OpenCells(h), 5 - k
  {
    if k < 4 {
      var n := Neighbour(x, y, k);
      var e := Explore(h, n.0, n.1);
      ExploreSound(h, n.0, n.1);
      if !e.found {
        EvolvesShrinks(h, e.grid);
        TryNeighboursSound(e.grid, x, y, k + 1);
        if TryNeighbours(e.grid, x, y, k + 1).found {
          ExitBesideBackward(h, e.grid, x, y);
        }
      }
    }
  }

  lemma ExitBesideBackward(h: Grid, e: Grid, x: int, y: int)
    requires Evolves(h, e) && ExitBeside(e, x, y)
    ensures ExitBeside(h, x, y)
  {
    var j :| 0 <= j < 4 && ReachesExit(e, Neighbour(x, y, j).0, Neighbour(x, y, j).1);
    ExitBackward(h, e, Neighbour(x, y, j).0, Neighbour(x, y, j).1);
  }

  /**
   * Failure leaves a closed grid: every cell the search marked has no
   * enterable neighbour left, and the starting cell itself is refused.
   */
  lemma {:induction false} ExploreFailureClosed(g: Grid, x: int, y: int)
    requires Walled(g) && InBounds(g, x, y)
    ensures !Explore(g, x, y).found ==>
      Closed(g, Explore(g, x, y).grid) && BlockedAt(Explore(g, x, y).grid, x, y)
    decreases OpenCells(g), 0
  {
    if Open(g[y][x]) {
      var g0 := Mark(g, x, y);
      MarkShrinks(g, x, y);
      TryNeighboursFailureClosed(g0, x, y, 0);
      var r := TryNeighbours(g0, x, y, 0);
      if !r.found {
        StartFenced(g, x, y, r.grid);
      }
    }
  }

  /** The start cell was marked and all four neighbours are refused afterwards. */
  lemma StartFenced(g: Grid, x: int, y: int, k: Grid)
    requires InBounds(g, x, y) && Open(g[y][x])
    requires Evolves(Mark(g, x, y), k) && Closed(Mark(g, x, y), k)
    requires forall j :: 0 <= j < 4 ==> BlockedAt(k, Neighbour(x, y, j).0, Neighbour(x, y, j).1)
    ensures SameShape(g, k) && Closed(g, k) && BlockedAt(k, x, y)
  {
    assert Surrounded(k, x, y) by {
      assert Neighbour(x, y, 0) == (x + 1, y) && Neighbour(x, y, 1) == (x - 1, y);
      assert Neighbour(x, y, 2) == (x, y + 1) && Neighbour(x, y, 3) == (x, y - 1);
    }
    ClosedAfterMark(g, x, y, k);
  }

  lemma {:induction false} TryNeighboursFailureClosed(h: Grid, x: int, y: int, k: int)
    requires Walled(h) && InBounds(h, x, y) && !OnBorder(h, x, y) && 0 <= k <= 4
    ensures !TryNeighbours(h, x, y, k).found ==>
      Closed(h, TryNeighbours(h, x, y, k).grid) &&
      forall j :: k <= j < 4 ==>
        BlockedAt(TryNeighbours(h, x, y, k).grid, Neighbour(x, y, j).0, Neighbour(x, y, j).1)
    decreases OpenCells(h), 5 - k
  {
    if k < 4 {
      var n := Neighbour(x, y, k);
      var e := Explore(h, n.0, n.1);
      if !e.found {
        ExploreFailureClosed(h, n.0, n.1);
        EvolvesShrinks(h, e.grid);
        TryNeighboursFailureClosed(e.grid, x, y, k + 1);
        var r := TryNeighbours(e.grid, x, y, k + 1);
        assert TryNeighbours(h, x, y, k) == r;
        if !r.found {
          FailuresCombine(h, e.grid, r.grid, x, y, k);
        }
      }
    }
  }

  /** One failed neighbour followed by failures on the rest of them. */
  lemma FailuresCombine(h: Grid, e: Grid, r: Grid, x: int, y: int, k: int)
    requires 0 <= k < 4
    requires Evolves(h, e) && Evolves(e, r) && Closed(h, e) && Closed(e, r)
    requires BlockedAt(e, Neighbour(x, y, k).0, Neighbour(x, y, k).1)
    requires forall j :: k + 1 <= j < 4 ==> BlockedAt(r, Neighbour(x, y, j).0, Neighbour(x, y, j).1)
    ensures Closed(h, r)
    ensures forall j :: k <= j < 4 ==> BlockedAt(r, Neighbour(x, y, j).0, Neighbour(x, y, j).1)
  {
    ClosedTransitive(h, e, r);
    BlockedPersists(e, r, Neighbour(x, y, k).0, Neighbour(x, y, k).1);
  }

  /**
   * The search answers true exactly when an exit is reachable from (x, y)
   * through cells other than '#', '*' and 'v'; when it answers false, every
   * such reachable cell has been marked 'v'.
   */
  lemma ExploreCorrect(g: Grid, x: int, y: int)
    requires Walled(g) && InBounds(g, x, y)
    ensures Explore(g, x, y).found <==> ReachesExit(g, x, y)
    ensures !Explore(g, x, y).found ==>
      forall b: Cell :: InBounds(g, b.0, b.1) && Reachable(g, (x, y), b) ==>
        Explore(g, x, y).grid[b.1][b.0] == 'v'
  {
    var r := Explore(g, x, y);
    ExploreSound(g, x, y);
    if !r.found {
      ExploreFailureClosed(g, x, y);
      ClosedCoversReach(g, r.grid, x, y);
    }
  }

  /**
   * The three ways the search stops at once: '#', '*' and 'v' are refused
   * and 'E' is accepted, and in all three cases the grid is left as it was.
   */
  lemma ExploreStops(g: Grid, x: int, y: int)
    requires Walled(g) && InBounds(g, x, y)
    ensures Blocked(g[y][x]) ==> Explore(g, x, y) == Outcome(false, g)
    ensures g[y][x] == 'E' ==> Explore(g, x, y) == Outcome(true, g)
    ensures Open(g[y][x]) ==> Explore(g, x, y).grid != g
  {
    if Open(g[y][x]) {
      assert Explore(g, x, y).grid[y][x] == 'v' != g[y][x];
    }
  }

  /**
   * The neighbour order with its short cut. The east neighbour is searched
   * first, on the grid with (x, y) just marked; if it succeeds, that is the
   * outcome of the whole search. Only after east failed is the west
   * neighbour searched, on the grid east left behind, and if west succeeds
   * its outcome is the outcome of the whole search.
   */
  lemma EastThenWest(g: Grid, x: int, y: int)
    requires Walled(g) && InBounds(g, x, y) && Open(g[y][x])
    ensures var east := Explore(Mark(g, x, y), x + 1, y);
      (east.found ==> Explore(g, x, y) == east) &&
      (!east.found ==>
        var west := Explore(east.grid, x - 1, y);
        west.found ==> Explore(g, x, y) == west)
  {
    var g0 := Mark(g, x, y);
    assert Neighbour(x, y, 0) == (x + 1, y) && Neighbour(x, y, 1) == (x - 1, y);
    var east := Explore(g0, x + 1, y);
    if !east.found {
      assert TryNeighbours(g0, x, y, 0) == TryNeighbours(east.grid, x, y, 1);
    }
  }

  /**
   * The search overwrites at most NUM_VERTICES cells of a walled map: it
   * only ever changes open cells, and those all lie inside the border.
   */
  lemma MarksWithinVertices(g: Grid, x: int, y: int)
    requires Walled(g) && InBounds(g, x, y) && |g[0]| >= 2 && |g| >= 2
    ensures |ChangedCells(g, Explore(g, x, y).grid)| <= Dimensions(g).vertices
  {
    var k := Explore(g, x, y).grid;
    EvolvesShrinks(g, k);
    SubsetSize(ChangedCells(g, k), OpenCells(g));
    OpenCellsWithinVertices(g);
  }

  /**
   * An instance of the short cut: an exit directly east of an open
   * cell ends the search after marking that one cell, so the west, south and
   * north neighbours are never entered.
   */
  lemma ExitEastFirst(g: Grid, x: int, y: int)
    requires Walled(g) && InBounds(g, x, y) && Open(g[y][x])
    requires InBounds(g, x + 1, y) && g[y][x + 1] == 'E'
    ensures Explore(g, x, y) == Outcome(true, Mark(g, x, y))
  {
    var g0 := Mark(g, x, y);
    assert g0[y][x + 1] == 'E';
    assert Explore(g0, x + 1, y) == Outcome(true, g0);
  }

  /**
   * The recursive depth-first search on the map's matrix, in place. It does
   * exactly what Explore describes, so it answers whether an exit is
   * reachable from (x, y) and overwrites only open cells, only with 'v'
   * (ExploreCorrect and Explore's own contract give the rest). The four
   * recursive calls of the source, east, west, south and north, each
   * returning at once on success, are the iterations of the loop over k.
   */
  method Dfs(m: Map, x: int, y: int) returns (found: bool)
    requires Walled(m.grid) && InBounds(m.grid, x, y)
    modifies m`grid
    ensures Outcome(found, m.grid) == Explore(old(m.grid), x, y)
    ensures Evolves(old(m.grid), m.grid)
    ensures found <==> ReachesExit(old(m.grid), x, y)
    decreases |OpenCells(m.grid)|
  {
    ghost var g := m.grid;
    ExploreCorrect(g, x, y);
    if Blocked(m.grid[y][x]) {
      return false;
    }
    if m.grid[y][x] == 'E' {
      return true;
    }

    m.grid := Mark(m.grid, x, y);
    FirstNeighbour(g, x, y);
    var k := 0;
    while k < 4
      invariant Reached(g, m.grid, x, y, k)
    {
      var n := Neighbour(x, y, k);
      ghost var h := m.grid;
      found := Dfs(m, n.0, n.1);
      NextNeighbour(g, h, x, y, k, found, m.grid);
      if found {
        return;
      }
      k := k + 1;
    }
    AllNeighbours(g, m.grid, x, y);
    return false;
  }

  /**
   * The search from the open cell (x, y) of g has marked it and is about to
   * try its k-th neighbour on grid h.
   */
  ghost predicate Reached(g: Grid, h: Grid, x: int, y: int, k: int) {
    Walled(g) && InBounds(g, x, y) && Open(g[y][x]) &&
    Walled(h) && InBounds(h, x, y) && !OnBorder(h, x, y) && 0 <= k <= 4 &&
    |OpenCells(h)| < |OpenCells(g)| &&
    Explore(g, x, y) == TryNeighbours(h, x, y, k)
  }

  /** All four neighbours failed: so has the search from (x, y). */
  lemma AllNeighbours(g: Grid, h: Grid, x: int, y: int)
    requires Reached(g, h, x, y, 4)
    ensures Explore(g, x, y) == Outcome(false, h)
  {
  }

  /** Marking (x, y) brings the search to its first neighbour. */
  lemma FirstNeighbour(g: Grid, x: int, y: int)
    requires Walled(g) && InBounds(g, x, y) && Open(g[y][x])
    ensures Reached(g, Mark(g, x, y), x, y, 0)
  {
    MarkShrinks(g, x, y);
    SubsetSize(OpenCells(Mark(g, x, y)), OpenCells(g) - {(x, y)});
  }

  /**
   * After the k-th neighbour answered: success ends the search with that
   * answer; failure moves on to the next neighbour on the grid it left.
   */
  lemma NextNeighbour(g: Grid, h: Grid, x: int, y: int, k: int, found: bool, h': Grid)
    requires Reached(g, h, x, y, k) && k < 4
    requires Outcome(found, h') == Explore(h, Neighbour(x, y, k).0, Neighbour(x, y, k).1)
    ensures found ==> Explore(g, x, y) == Outcome(found, h')
    ensures !found ==> Reached(g, h', x, y, k + 1)
  {
    if !found {
      EvolvesShrinks(h, h');
      SubsetSize(OpenCells(h'), OpenCells(h));
    }
  }
}
