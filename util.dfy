/**
 * The neighbourhood of a tile and the flood fill that opens empty regions
 * (util.py), and the sprite key of a tile, which is chosen from the
 * neighbourhood's mine count (state.py, TileState.sprite).
 */
module Util {
  import opened State

  /** (x, y) lies in the 3 × 3 block centred on (col, row) and is not its centre. */
  predicate IsNeighbour(col: int, row: int, x: int, y: int)
  {
    col - 1 <= x <= col + 1 && row - 1 <= y <= row + 1 && !(x == col && y == row)
  }

  /** Row-major order: a comes before b when it is on an earlier row, or on the same row further left. */
  predicate Before(a: (int, int), b: (int, int))
  {
    a.1 < b.1 || (a.1 == b.1 && a.0 < b.0)
  }

  /** The in-bounds neighbours of (col, row) whose tile is mined. */
  function MinedNeighbours(f: Field, col: int, row: int): set<(int, int)>
    requires Rectangular(f)
  {
    set y, x | row - 1 <= y <= row + 1 && col - 1 <= x <= col + 1 && !(x == col && y == row) &&
               InBounds(f, x, y) && f[y][x].mined :: (x, y)
  }

  /** The number of mines around (col, row): the number shown on an opened tile. */
  function AdjacentMines(f: Field, col: int, row: int): nat
    requires Rectangular(f)
  {
    |MinedNeighbours(f, col, row)|
  }

  /** The mined neighbours that a row-major scan of the block meets before (x, y). */
  ghost function MinedNeighboursBefore(f: Field, col: int, row: int, x: int, y: int): set<(int, int)>
    requires Rectangular(f)
  {
    set y', x' | row - 1 <= y' <= row + 1 && col - 1 <= x' <= col + 1 && !(x' == col && y' == row) &&
                 Before((x', y'), (x, y)) && InBounds(f, x', y') && f[y'][x'].mined :: (x', y')
  }

  /** The eight positions around (col, row). */
  ghost function Ring(col: int, row: int): set<(int, int)>
  {
    {(col - 1, row - 1), (col, row - 1), (col + 1, row - 1),
     (col - 1, row), (col + 1, row),
     (col - 1, row + 1), (col, row + 1), (col + 1, row + 1)}
  }

  /** A tile has at most eight mined neighbours. */
  lemma AdjacentMinesAtMostEight(f: Field, col: int, row: int)
    requires Rectangular(f)
    ensures AdjacentMines(f, col, row) <= 8
  {
    var m := MinedNeighbours(f, col, row);
    var ring := Ring(col, row);
    assert |ring| == 8;
    assert m <= ring;
    assert ring == m + (ring - m);
  }

  /**
   * The count depends on nothing but where the neighbours' mines are: two
   * grids of the same size that agree on the mines around (col, row) give
   * the same count, whatever else differs, the centre tile included.
   */
  lemma AdjacentMinesFrame(f: Field, g: Field, col: int, row: int)
    requires Rectangular(f) && Rectangular(g)
    requires |f| == |g| && (|f| > 0 ==> |f[0]| == |g[0]|)
    requires forall y, x :: IsNeighbour(col, row, x, y) && InBounds(f, x, y) ==> f[y][x].mined == g[y][x].mined
    ensures AdjacentMines(f, col, row) == AdjacentMines(g, col, row)
  {
    assert MinedNeighbours(f, col, row) == MinedNeighbours(g, col, row) by {
      forall p | p in MinedNeighbours(f, col, row) ensures p in MinedNeighbours(g, col, row) {
        assert IsNeighbour(col, row, p.0, p.1);
      }
      forall p | p in MinedNeighbours(g, col, row) ensures p in MinedNeighbours(f, col, row) {
        assert IsNeighbour(col, row, p.0, p.1);
      }
    }
  }

  /** The centre tile is never counted: replacing it, by a mined tile say, leaves the count as it was. */
  lemma CentreNotCounted(f: Field, col: int, row: int, t: Tile)
    requires Rectangular(f) && InBounds(f, col, row)
    ensures Rectangular(f[row := f[row][col := t]])
    ensures AdjacentMines(f[row := f[row][col := t]], col, row) == AdjacentMines(f, col, row)
  {
    var g := f[row := f[row][col := t]];
    assert |g[row]| == |f[row]|;
    AdjacentMinesFrame(f, g, col, row);
  }

  /** On a grid without mines every count is zero. */
  lemma NoMinesNoCount(f: Field, col: int, row: int)
    requires Rectangular(f)
    requires forall y, x :: 0 <= y < |f| && 0 <= x < |f[y]| ==> !f[y][x].mined
    ensures AdjacentMines(f, col, row) == 0
  {
    assert MinedNeighbours(f, col, row) == {};
  }

  /** A step of the row-major scan of the block past a position that does not count. */
  lemma ScanSkip(f: Field, col: int, row: int, x: int, y: int)
    requires Rectangular(f)
    requires !(IsNeighbour(col, row, x, y) && InBounds(f, x, y) && f[y][x].mined)
    ensures |MinedNeighboursBefore(f, col, row, x + 1, y)| == |MinedNeighboursBefore(f, col, row, x, y)|
  {
    assert MinedNeighboursBefore(f, col, row, x + 1, y) == MinedNeighboursBefore(f, col, row, x, y);
  }

  /** A step of the row-major scan of the block past a mined neighbour: it is counted. */
  lemma ScanAdd(f: Field, col: int, row: int, x: int, y: int)
    requires Rectangular(f)
    requires IsNeighbour(col, row, x, y) && InBounds(f, x, y) && f[y][x].mined
    ensures |MinedNeighboursBefore(f, col, row, x + 1, y)| == |MinedNeighboursBefore(f, col, row, x, y)| + 1
  {
    ScanAddSet(f, col, row, x, y);
  }

  lemma ScanAddSet(f: Field, col: int, row: int, x: int, y: int)
    requires Rectangular(f)
    requires IsNeighbour(col, row, x, y) && InBounds(f, x, y) && f[y][x].mined
    ensures (x, y) !in MinedNeighboursBefore(f, col, row, x, y)
    ensures MinedNeighboursBefore(f, col, row, x + 1, y) == MinedNeighboursBefore(f, col, row, x, y) + {(x, y)}
  {
  }

  /** The scan starts from nothing, goes on from the end of one row to the start of the next, and ends with all. */
  lemma ScanRows(f: Field, col: int, row: int, y: int)
    requires Rectangular(f)
    ensures |MinedNeighboursBefore(f, col, row, col + 2, y)| == |MinedNeighboursBefore(f, col, row, col - 1, y + 1)|
    ensures |MinedNeighboursBefore(f, col, row, col - 1, row - 1)| == 0
    ensures |MinedNeighboursBefore(f, col, row, col - 1, row + 2)| == AdjacentMines(f, col, row)
  {
    assert MinedNeighboursBefore(f, col, row, col + 2, y) == MinedNeighboursBefore(f, col, row, col - 1, y + 1);
    assert MinedNeighboursBefore(f, col, row, col - 1, row - 1) == {};
    assert MinedNeighboursBefore(f, col, row, col - 1, row + 2) == MinedNeighbours(f, col, row);
  }

  /** Counts the mined tiles among the in-bounds neighbours of (col, row), scanning the 3 × 3 block row by row. */
  method CountAdjacentMines(col: int, row: int, s: SweeperState) returns (count: nat)
    requires Rectangular(s.field)
    ensures count == AdjacentMines(s.field, col, row)
    ensures count <= 8
  {
    count := 0;
    ScanRows(s.field, col, row, row - 1);
    for y := row - 1 to row + 2
      invariant count == |MinedNeighboursBefore(s.field, col, row, col - 1, y)|
    {
      for x := col - 1 to col + 2
        invariant count == |MinedNeighboursBefore(s.field, col, row, x, y)|
      {
        if x == col && y == row {
          ScanSkip(s.field, col, row, x, y);
          continue;
        }
        if x < 0 || y < 0 || y >= s.Height() || x >= s.Width() {
          ScanSkip(s.field, col, row, x, y);
          continue;
        }
        if s.field[y][x].mined {
          ScanAdd(s.field, col, row, x, y);
          count := count + 1;
        } else {
          ScanSkip(s.field, col, row, x, y);
        }
      }
      ScanRows(s.field, col, row, y);
    }
    AdjacentMinesAtMostEight(s.field, col, row);
  }

  /** (x, y) is a neighbour of (col, row) on the grid whose tile is neither mined nor opened. */
  predicate IsEmptyNeighbour(f: Field, col: int, row: int, x: int, y: int)
    requires Rectangular(f)
  {
    IsNeighbour(col, row, x, y) && InBounds(f, x, y) && !f[y][x].mined && !f[y][x].open
  }

  /**
   * Lists the neighbours of (col, row) that are on the grid, unmined and
   * unopened (flagged ones included), each once, in row-major order.
   */
  method FindEmptyAdjacent(col: int, row: int, s: SweeperState) returns (empty: seq<(int, int)>)
    requires Rectangular(s.field)
    ensures forall p :: p in empty <==> IsEmptyNeighbour(s.field, col, row, p.0, p.1)
    ensures forall i, j :: 0 <= i < j < |empty| ==> Before(empty[i], empty[j])
  {
    empty := [];
    for y := row - 1 to row + 2
      invariant forall p :: p in empty <==> IsEmptyNeighbour(s.field, col, row, p.0, p.1) && p.1 < y
      invariant forall i, j :: 0 <= i < j < |empty| ==> Before(empty[i], empty[j])
    {
      for x := col - 1 to col + 2
        invariant forall p :: p in empty <==> IsEmptyNeighbour(s.field, col, row, p.0, p.1) && Before(p, (x, y))
        invariant forall i, j :: 0 <= i < j < |empty| ==> Before(empty[i], empty[j])
      {
        if x == col && y == row {
          continue;
        }
        if x < 0 || y < 0 || y >= s.Height() || x >= s.Width() {
          continue;
        }
        var tile := s.TileAt(x, y);
        if !tile.mined && !tile.open {
          empty := empty + [(x, y)];
        }
      }
    }
  }

  /** The grid after `tile_at(x, y).opened = True`. */
  function OpenCell(f: Field, x: int, y: int): (g: Field)
    requires 0 <= y < |f| && 0 <= x < |f[y]|
    ensures |g| == |f| && forall y' :: 0 <= y' < |g| ==> |g[y']| == |f[y']|
    ensures g[y][x] == f[y][x].(open := true)
    ensures forall y', x' :: 0 <= y' < |g| && 0 <= x' < |g[y']| && (x', y') != (x, y) ==> g[y'][x'] == f[y'][x']
  {
    f[y := f[y][x := f[y][x].(open := true)]]
  }

  /** Opening an opened tile changes nothing. */
  lemma OpenCellIdempotent(f: Field, x: int, y: int)
    requires 0 <= y < |f| && 0 <= x < |f[y]| && f[y][x].open
    ensures OpenCell(f, x, y) == f
  {
    assert f[y][x].(open := true) == f[y][x];
    assert f[y][x := f[y][x]] == f[y];
  }

  /**
   * g differs from f at most in tiles that went from unopened to opened:
   * same shape, same positions, mines and flags, no tile closed again.
   */
  ghost predicate OnlyOpens(f: Field, g: Field)
  {
    && |g| == |f|
    && (forall y :: 0 <= y < |g| ==> |g[y]| == |f[y]|)
    && (forall y, x :: 0 <= y < |g| && 0 <= x < |g[y]| && x < |f[y]| ==>
          && g[y][x].pos == f[y][x].pos
          && g[y][x].mined == f[y][x].mined
          && g[y][x].flagged == f[y][x].flagged
          && (f[y][x].open ==> g[y][x].open))
  }

  /** Opening tiles never touches mines: the mined tiles of f are those of g. */
  lemma MinedTilesKept(f: Field, g: Field)
    requires OnlyOpens(f, g)
    ensures MinedTiles(g) == MinedTiles(f)
  {
  }

  /** Tile (x, y) was unopened in f and is opened in g. */
  ghost predicate NewlyOpened(f: Field, g: Field, x: int, y: int)
  {
    0 <= y < |f| && 0 <= x < |f[y]| && 0 <= y < |g| && 0 <= x < |g[y]| && !f[y][x].open && g[y][x].open
  }

  /** Every neighbour of (x, y) on the grid that holds no mine is opened. */
  ghost predicate Expanded(f: Field, x: int, y: int)
    requires Rectangular(f)
  {
    forall y', x' :: IsNeighbour(x, y, x', y') && InBounds(f, x', y') && !f[y'][x'].mined ==> f[y'][x'].open
  }

  /**
   * A flood fill from (x, y) has nothing left to do on f: the seed is mined,
   * or it is opened and either shows a number or has all its unmined
   * neighbours opened.
   */
  ghost predicate Settled(f: Field, x: int, y: int)
    requires Rectangular(f) && InBounds(f, x, y)
  {
    f[y][x].mined || (f[y][x].open && (AdjacentMines(f, x, y) > 0 || Expanded(f, x, y)))
  }

  /**
   * A walk across the grid through unmined tiles, each step to a neighbour,
   * that passes only through tiles with no mined neighbour: only its last
   * tile may show a number.
   */
  ghost predicate ZeroPath(f: Field, path: seq<(int, int)>)
    requires Rectangular(f)
  {
    && |path| > 0
    && (forall i :: 0 <= i < |path| ==> InBounds(f, path[i].0, path[i].1) && !f[path[i].1][path[i].0].mined)
    && (forall i :: 0 <= i < |path| - 1 ==>
          AdjacentMines(f, path[i].0, path[i].1) == 0 && IsNeighbour(path[i].0, path[i].1, path[i + 1].0, path[i + 1].1))
  }

  /**
   * A zero path from the seed (x, y) to q whose tiles after the seed were
   * all unopened in f: the fill never pushes an opened tile, so it never
   * walks through one.
   */
  ghost predicate PathTo(f: Field, x: int, y: int, path: seq<(int, int)>, q: (int, int))
    requires Rectangular(f)
  {
    && ZeroPath(f, path)
    && path[0] == (x, y)
    && path[|path| - 1] == q
    && (forall i :: 0 < i < |path| ==> !f[path[i].1][path[i].0].open)
  }

  /** A flood fill from (x, y) can get to (a, b): the tiles it may open. */
  ghost predicate Reachable(f: Field, x: int, y: int, a: int, b: int)
    requires Rectangular(f)
  {
    exists path :: PathTo(f, x, y, path, (a, b))
  }

  /**
   * What a flood fill from (x, y) leaves behind in g, starting from f: it
   * only opens tiles, and never a mined one; from a mined seed it changes
   * nothing; otherwise the seed is opened, and the seed and every tile it
   * opened, if it has no mined neighbour, has all its unmined neighbours
   * opened. It opens nothing else: every tile it opens is reachable from the
   * seed without passing through a tile that shows a number.
   */
  ghost predicate FloodFilled(f: Field, g: Field, x: int, y: int)
    requires Rectangular(f) && InBounds(f, x, y)
  {
    && OnlyOpens(f, g)
    && Rectangular(g)
    && (forall y', x' :: NewlyOpened(f, g, x', y') ==> !f[y'][x'].mined)
    && (f[y][x].mined ==> g == f)
    && (!f[y][x].mined ==> g[y][x].open)
    && (!f[y][x].mined && AdjacentMines(f, x, y) == 0 ==> Expanded(g, x, y))
    && (forall y', x' :: NewlyOpened(f, g, x', y') && AdjacentMines(f, x', y') == 0 ==> Expanded(g, x', y'))
    && (forall y', x' :: NewlyOpened(f, g, x', y') ==> Reachable(f, x, y, x', y'))
  }

  /** The number of work-list entries whose tile is already opened. */
  ghost function OpenedEntries(f: Field, stack: seq<(int, int)>): nat
  {
    if stack == [] then 0
    else
      var p := stack[|stack| - 1];
      OpenedEntries(f, stack[..|stack| - 1]) +
      (if 0 <= p.1 < |f| && 0 <= p.0 < |f[p.1]| && f[p.1][p.0].open then 1 else 0)
  }

  /** Pushing entries whose tiles are unopened adds no opened entry. */
  lemma {:induction false} OpenedEntriesAppend(f: Field, a: seq<(int, int)>, b: seq<(int, int)>)
    requires forall q: (int, int) :: q in b ==> 0 <= q.1 < |f| && 0 <= q.0 < |f[q.1]| && !f[q.1][q.0].open
    ensures OpenedEntries(f, a + b) == OpenedEntries(f, a)
  {
    if b != [] {
      var n := |b| - 1;
      assert (a + b)[..|a + b| - 1] == a + b[..n];
      assert (a + b)[|a + b| - 1] == b[n];
      assert b[n] in b;
      assert forall q :: q in b[..n] ==> q in b;
      OpenedEntriesAppend(f, a, b[..n]);
    } else {
      assert a + b == a;
    }
  }

  /**
   * The flood fill's bookkeeping: every tile it popped is opened and, if it
   * has no mined neighbour, each unmined neighbour on the grid is opened or
   * still waiting on the work list.
   */
  ghost predicate Handled(f0: Field, f: Field, stack: seq<(int, int)>, popped: set<(int, int)>)
    requires Rectangular(f0) && OnlyOpens(f0, f)
  {
    forall p :: p in popped ==>
      && InBounds(f0, p.0, p.1)
      && f[p.1][p.0].open
      && (AdjacentMines(f0, p.0, p.1) == 0 ==>
            forall y', x' :: IsNeighbour(p.0, p.1, x', y') && InBounds(f0, x', y') && !f0[y'][x'].mined ==>
              f[y'][x'].open || (x', y') in stack)
  }

  /** Opening a tile keeps to what a flood fill may do. */
  lemma OpenStepOnlyOpens(f0: Field, f: Field, p: (int, int))
    requires Rectangular(f0) && OnlyOpens(f0, f) && InBounds(f0, p.0, p.1)
    ensures OnlyOpens(f0, OpenCell(f, p.0, p.1))
    ensures Rectangular(OpenCell(f, p.0, p.1))
    ensures forall q: (int, int) :: NewlyOpened(f0, OpenCell(f, p.0, p.1), q.0, q.1) ==> q == p || NewlyOpened(f0, f, q.0, q.1)
  {
  }

  /** Opening an unopened tile shrinks the set of unopened tiles. */
  lemma OpenStepShrinks(f: Field, p: (int, int))
    requires 0 <= p.1 < |f| && 0 <= p.0 < |f[p.1]| && !f[p.1][p.0].open
    ensures UnopenedTiles(OpenCell(f, p.0, p.1)) < UnopenedTiles(f)
  {
    assert UnopenedTiles(OpenCell(f, p.0, p.1)) == UnopenedTiles(f) - {p};
    assert p in UnopenedTiles(f);
  }

  /** Popping p, opening it and pushing `more` keeps the bookkeeping. */
  lemma HandledAfterPop(f0: Field, f: Field, rest: seq<(int, int)>, p: (int, int), popped: set<(int, int)>,
                        more: seq<(int, int)>)
    requires Rectangular(f0) && OnlyOpens(f0, f) && InBounds(f0, p.0, p.1)
    requires Handled(f0, f, rest + [p], popped)
    requires OnlyOpens(f0, OpenCell(f, p.0, p.1)) && Rectangular(OpenCell(f, p.0, p.1))
    requires AdjacentMines(f0, p.0, p.1) == 0 ==>
               forall q: (int, int) :: q in more <==> IsEmptyNeighbour(OpenCell(f, p.0, p.1), p.0, p.1, q.0, q.1)
    ensures Handled(f0, OpenCell(f, p.0, p.1), rest + more, popped + {p})
  {
    var g: Field := OpenCell(f, p.0, p.1);
    forall q: (int, int) | q in popped + {p}
      ensures InBounds(f0, q.0, q.1) && g[q.1][q.0].open
      ensures AdjacentMines(f0, q.0, q.1) == 0 ==>
                forall y', x' :: IsNeighbour(q.0, q.1, x', y') && InBounds(f0, x', y') && !f0[y'][x'].mined ==>
                  g[y'][x'].open || (x', y') in rest + more
    {
      if AdjacentMines(f0, q.0, q.1) == 0 {
        forall y', x' | IsNeighbour(q.0, q.1, x', y') && InBounds(f0, x', y') && !f0[y'][x'].mined
          ensures g[y'][x'].open || (x', y') in rest + more
        {
          if q in popped && !f[y'][x'].open {
            assert (x', y') in rest + [p];
          } else if q == p && !g[y'][x'].open {
            assert IsEmptyNeighbour(g, p.0, p.1, x', y');
          }
        }
      }
    }
  }

  lemma FirstIsMember<T>(s: seq<T>)
    ensures s != [] ==> s[0] in s
  {
  }

  /** The invariant of the flood fill's loop, gathered in one place. */
  ghost predicate FillInvariant(f0: Field, f: Field, stack: seq<(int, int)>, popped: set<(int, int)>, x: int, y: int)
    requires Rectangular(f0) && InBounds(f0, x, y)
  {
    && OnlyOpens(f0, f)
    && Rectangular(f)
    && !f0[y][x].mined
    && (forall q: (int, int) :: q in stack ==> InBounds(f0, q.0, q.1) && !f0[q.1][q.0].mined)
    && (forall y', x' :: NewlyOpened(f0, f, x', y') ==> !f0[y'][x'].mined && (x', y') in popped)
    && Handled(f0, f, stack, popped)
    && (popped == {} ==> stack == [(x, y)] && f == f0)
    && (popped != {} ==> (x, y) in popped)
    && (Settled(f0, x, y) ==> f == f0 && (popped == {} || stack == []))
  }

  /** What the loop needs of the entry it pops: it is on the grid, and opening it keeps the count of its mined neighbours. */
  lemma PopFacts(f0: Field, f: Field, stack: seq<(int, int)>, popped: set<(int, int)>, x: int, y: int)
    requires Rectangular(f0) && InBounds(f0, x, y)
    requires FillInvariant(f0, f, stack, popped, x, y) && stack != []
    ensures var p := stack[|stack| - 1];
            && 0 <= p.1 < |f| && 0 <= p.0 < |f[p.1]|
            && Rectangular(OpenCell(f, p.0, p.1))
            && AdjacentMines(OpenCell(f, p.0, p.1), p.0, p.1) == AdjacentMines(f0, p.0, p.1)
  {
    var p := stack[|stack| - 1];
    assert p in stack;
    OpenStepOnlyOpens(f0, f, p);
    AdjacentMinesFrame(f0, OpenCell(f, p.0, p.1), p.0, p.1);
  }

  /**
   * One turn of the loop: pop p, open it, and push `more` (nothing when p
   * shows a number). The bookkeeping is kept, and the turn either opens a
   * tile or drops an entry whose tile was already opened.
   */
  lemma FillStep(f0: Field, f: Field, stack: seq<(int, int)>, popped: set<(int, int)>, x: int, y: int,
                 more: seq<(int, int)>)
    requires Rectangular(f0) && InBounds(f0, x, y)
    requires FillInvariant(f0, f, stack, popped, x, y) && stack != []
    requires var p := stack[|stack| - 1];
             AdjacentMines(f0, p.0, p.1) == 0 ==>
               forall q: (int, int) :: q in more <==> IsEmptyNeighbour(OpenCell(f, p.0, p.1), p.0, p.1, q.0, q.1)
    requires var p := stack[|stack| - 1];
             AdjacentMines(f0, p.0, p.1) > 0 ==> more == []
    ensures var p := stack[|stack| - 1];
            FillInvariant(f0, OpenCell(f, p.0, p.1), stack[..|stack| - 1] + more, popped + {p}, x, y)
  {
    var p := stack[|stack| - 1];
    var rest := stack[..|stack| - 1];
    assert stack == rest + [p];
    assert p in stack;
    var g: Field := OpenCell(f, p.0, p.1);
    OpenStepOnlyOpens(f0, f, p);
    HandledAfterPop(f0, f, rest, p, popped, more);
    PushedOnGrid(f0, f, rest, p, more);
    SettledStep(f0, f, stack, popped, x, y, more);
    NewlyOpenedStep(f0, f, popped, p);
  }

  /** Every tile opened so far was popped, and none of them holds a mine. */
  lemma NewlyOpenedStep(f0: Field, f: Field, popped: set<(int, int)>, p: (int, int))
    requires Rectangular(f0) && OnlyOpens(f0, f) && InBounds(f0, p.0, p.1) && !f0[p.1][p.0].mined
    requires forall y', x' :: NewlyOpened(f0, f, x', y') ==> !f0[y'][x'].mined && (x', y') in popped
    ensures forall y', x' :: NewlyOpened(f0, OpenCell(f, p.0, p.1), x', y') ==> !f0[y'][x'].mined && (x', y') in popped + {p}
  {
    forall y', x' | NewlyOpened(f0, OpenCell(f, p.0, p.1), x', y')
      ensures !f0[y'][x'].mined && (x', y') in popped + {p}
    {
      if (x', y') != p {
        assert NewlyOpened(f0, f, x', y');
      }
    }
  }

  /** What stays on the work list and what is pushed lies on the grid and holds no mine. */
  lemma PushedOnGrid(f0: Field, f: Field, rest: seq<(int, int)>, p: (int, int), more: seq<(int, int)>)
    requires Rectangular(f0) && OnlyOpens(f0, f) && InBounds(f0, p.0, p.1)
    requires forall q: (int, int) :: q in rest + [p] ==> InBounds(f0, q.0, q.1) && !f0[q.1][q.0].mined
    requires forall q: (int, int) :: q in more ==> IsEmptyNeighbour(OpenCell(f, p.0, p.1), p.0, p.1, q.0, q.1)
    ensures forall q: (int, int) :: q in rest + more ==> InBounds(f0, q.0, q.1) && !f0[q.1][q.0].mined
  {
    forall q: (int, int) | q in rest + more
      ensures InBounds(f0, q.0, q.1) && !f0[q.1][q.0].mined
    {
      if q in rest {
        assert q in rest + [p];
      }
    }
  }

  /** From a settled seed, the only turn pops the seed, changes nothing and empties the work list. */
  lemma SettledStep(f0: Field, f: Field, stack: seq<(int, int)>, popped: set<(int, int)>, x: int, y: int,
                    more: seq<(int, int)>)
    requires Rectangular(f0) && InBounds(f0, x, y)
    requires FillInvariant(f0, f, stack, popped, x, y) && stack != []
    requires var p := stack[|stack| - 1];
             AdjacentMines(f0, p.0, p.1) == 0 ==>
               forall q: (int, int) :: q in more <==> IsEmptyNeighbour(OpenCell(f, p.0, p.1), p.0, p.1, q.0, q.1)
    requires var p := stack[|stack| - 1];
             AdjacentMines(f0, p.0, p.1) > 0 ==> more == []
    ensures Settled(f0, x, y) ==>
              var p := stack[|stack| - 1];
              OpenCell(f, p.0, p.1) == f0 && stack[..|stack| - 1] + more == []
  {
    if Settled(f0, x, y) {
      assert stack == [(x, y)] && f == f0;
      OpenCellIdempotent(f, x, y);
      if AdjacentMines(f0, x, y) == 0 {
        FirstIsMember(more);
        assert more == [];
      }
    }
  }

  /**
   * Each turn makes progress: it opens a tile, or it drops an entry whose
   * tile was already opened and pushes only unopened ones.
   */
  lemma FillProgress(f: Field, stack: seq<(int, int)>, more: seq<(int, int)>)
    requires Rectangular(f) && stack != []
    requires var p := stack[|stack| - 1];
             0 <= p.1 < |f| && 0 <= p.0 < |f[p.1]| &&
             forall q: (int, int) :: q in more ==> IsEmptyNeighbour(OpenCell(f, p.0, p.1), p.0, p.1, q.0, q.1)
    ensures var p := stack[|stack| - 1];
            var g := OpenCell(f, p.0, p.1);
            || UnopenedTiles(g) < UnopenedTiles(f)
            || (UnopenedTiles(g) == UnopenedTiles(f) &&
                OpenedEntries(g, stack[..|stack| - 1] + more) < OpenedEntries(f, stack))
  {
    var p := stack[|stack| - 1];
    var rest := stack[..|stack| - 1];
    if f[p.1][p.0].open {
      OpenCellIdempotent(f, p.0, p.1);
      assert OpenedEntries(f, stack) == OpenedEntries(f, rest) + 1;
      forall q: (int, int) | q in more
        ensures 0 <= q.1 < |f| && 0 <= q.0 < |f[q.1]| && !f[q.1][q.0].open
      {
        assert IsEmptyNeighbour(f, p.0, p.1, q.0, q.1);
      }
      OpenedEntriesAppend(f, rest, more);
    } else {
      OpenStepShrinks(f, p);
    }
  }

  /**
   * A whole turn, stated on the values the loop holds after it: the grid g
   * with p opened, the work list `rest + more` and the popped set with p.
   */
  lemma FillTurn(f0: Field, f: Field, stack: seq<(int, int)>, popped: set<(int, int)>, x: int, y: int,
                 p: (int, int), rest: seq<(int, int)>, more: seq<(int, int)>,
                 g: Field, stack': seq<(int, int)>, popped': set<(int, int)>,
                 paths: map<(int, int), seq<(int, int)>>)
    requires Rectangular(f0) && InBounds(f0, x, y)
    requires FillInvariant(f0, f, stack, popped, x, y) && PathsKept(f0, x, y, stack, popped, paths)
    requires stack != [] && p == stack[|stack| - 1] && rest == stack[..|stack| - 1]
    requires stack' == rest + more && popped' == popped + {p}
    requires 0 <= p.1 < |f| && 0 <= p.0 < |f[p.1]| && g == OpenCell(f, p.0, p.1)
    requires AdjacentMines(f0, p.0, p.1) == 0 ==>
               forall q: (int, int) :: q in more <==> IsEmptyNeighbour(g, p.0, p.1, q.0, q.1)
    requires AdjacentMines(f0, p.0, p.1) > 0 ==> more == []
    ensures FillInvariant(f0, g, stack', popped', x, y)
    ensures p in paths && PathsKept(f0, x, y, stack', popped', ExtendPaths(paths, p, more))
    ensures || UnopenedTiles(g) < UnopenedTiles(f)
            || (UnopenedTiles(g) == UnopenedTiles(f) && OpenedEntries(g, stack') < OpenedEntries(f, stack))
  {
    FillStep(f0, f, stack, popped, x, y, more);
    assert p in stack;
    OpenStepOnlyOpens(f0, f, p);
    FillProgress(f, stack, more);
    forall q: (int, int) | q in more
      ensures IsNeighbour(p.0, p.1, q.0, q.1) && InBounds(f0, q.0, q.1) && !f0[q.1][q.0].mined
      ensures !f0[q.1][q.0].open
    {
      assert q in stack';
      assert IsEmptyNeighbour(g, p.0, p.1, q.0, q.1);
    }
    PathsStep(f0, x, y, stack, popped, paths, p, rest, more);
  }

  /** Every entry on the work list and every popped tile has a zero path from the seed, kept in `paths`. */
  ghost predicate PathsKept(f0: Field, x: int, y: int, stack: seq<(int, int)>, popped: set<(int, int)>,
                            paths: map<(int, int), seq<(int, int)>>)
    requires Rectangular(f0)
  {
    && (forall q :: q in stack ==> q in paths && PathTo(f0, x, y, paths[q], q))
    && (forall q :: q in popped ==> q in paths && PathTo(f0, x, y, paths[q], q))
  }

  /** The paths after a turn that popped p and pushed `more`: each pushed tile is reached through p. */
  ghost function ExtendPaths(paths: map<(int, int), seq<(int, int)>>, p: (int, int), more: seq<(int, int)>)
    : map<(int, int), seq<(int, int)>>
    requires p in paths
  {
    paths + map q | q in more :: paths[p] + [q]
  }

  /** A zero path to a tile with no mined neighbour goes on to any unmined neighbour of it. */
  lemma PathAppend(f: Field, x: int, y: int, path: seq<(int, int)>, p: (int, int), q: (int, int))
    requires Rectangular(f) && PathTo(f, x, y, path, p)
    requires AdjacentMines(f, p.0, p.1) == 0 && IsNeighbour(p.0, p.1, q.0, q.1)
    requires InBounds(f, q.0, q.1) && !f[q.1][q.0].mined && !f[q.1][q.0].open
    ensures PathTo(f, x, y, path + [q], q)
  {
    var path' := path + [q];
    forall i | 0 <= i < |path'| - 1
      ensures AdjacentMines(f, path'[i].0, path'[i].1) == 0
      ensures IsNeighbour(path'[i].0, path'[i].1, path'[i + 1].0, path'[i + 1].1)
    {
      if i < |path| - 1 {
        assert path'[i] == path[i] && path'[i + 1] == path[i + 1];
      }
    }
  }

  /**
   * A turn keeps a zero path for every entry: the tiles pushed from p are
   * its neighbours, and p has no mined neighbour when anything is pushed.
   */
  lemma PathsStep(f0: Field, x: int, y: int, stack: seq<(int, int)>, popped: set<(int, int)>,
                  paths: map<(int, int), seq<(int, int)>>, p: (int, int), rest: seq<(int, int)>, more: seq<(int, int)>)
    requires Rectangular(f0) && PathsKept(f0, x, y, stack, popped, paths)
    requires stack != [] && p == stack[|stack| - 1] && rest == stack[..|stack| - 1]
    requires AdjacentMines(f0, p.0, p.1) > 0 ==> more == []
    requires forall q: (int, int) :: q in more ==>
               IsNeighbour(p.0, p.1, q.0, q.1) && InBounds(f0, q.0, q.1) && !f0[q.1][q.0].mined && !f0[q.1][q.0].open
    ensures p in paths && PathsKept(f0, x, y, rest + more, popped + {p}, ExtendPaths(paths, p, more))
  {
    assert stack == rest + [p];
    assert p in stack;
    var paths' := ExtendPaths(paths, p, more);
    forall q: (int, int) | q in rest + more || q in popped + {p}
      ensures q in paths' && PathTo(f0, x, y, paths'[q], q)
    {
      if q in more {
        PathAppend(f0, x, y, paths[p], p, q);
      } else if q in rest {
        assert q in stack;
      }
    }
  }

  /** A zero path from a seed that shows a number goes nowhere. */
  lemma PathFromNumber(f: Field, x: int, y: int, path: seq<(int, int)>, q: (int, int))
    requires Rectangular(f) && InBounds(f, x, y) && AdjacentMines(f, x, y) > 0
    requires PathTo(f, x, y, path, q)
    ensures q == (x, y)
  {
  }

  /**
   * A flood fill stops at tiles that show a number: from such a seed it
   * opens the seed and nothing else.
   */
  lemma NumberSeedStops(f: Field, g: Field, x: int, y: int)
    requires Rectangular(f) && InBounds(f, x, y) && FloodFilled(f, g, x, y)
    requires !f[y][x].mined && AdjacentMines(f, x, y) > 0
    ensures g == OpenCell(f, x, y)
  {
    var h := OpenCell(f, x, y);
    forall y', x' | 0 <= y' < |g| && 0 <= x' < |g[y']|
      ensures g[y'][x'] == h[y'][x']
    {
      if NewlyOpened(f, g, x', y') {
        var path :| PathTo(f, x, y, path, (x', y'));
        PathFromNumber(f, x, y, path, (x', y'));
      }
    }
    forall y' | 0 <= y' < |g|
      ensures g[y'] == h[y']
    {
    }
  }

  /** A flood fill from a mined seed has nothing to do. */
  lemma MinedSeed(f: Field, x: int, y: int)
    requires Rectangular(f) && InBounds(f, x, y) && f[y][x].mined
    ensures FloodFilled(f, f, x, y) && Settled(f, x, y)
  {
  }

  /** Before the first turn, the work list holds the seed alone. */
  lemma FillStart(f: Field, x: int, y: int)
    requires Rectangular(f) && InBounds(f, x, y) && !f[y][x].mined
    ensures FillInvariant(f, f, [(x, y)], {}, x, y)
    ensures PathsKept(f, x, y, [(x, y)], {}, map[(x, y) := [(x, y)]])
  {
  }

  /** When the work list is empty, the loop's invariant gives the flood fill's promise. */
  lemma FillDone(f0: Field, f: Field, popped: set<(int, int)>, paths: map<(int, int), seq<(int, int)>>, x: int, y: int)
    requires Rectangular(f0) && InBounds(f0, x, y)
    requires FillInvariant(f0, f, [], popped, x, y) && PathsKept(f0, x, y, [], popped, paths)
    ensures FloodFilled(f0, f, x, y) && Settled(f, x, y)
  {
    assert (x, y) in popped;
    forall y', x' | NewlyOpened(f0, f, x', y')
      ensures AdjacentMines(f0, x', y') == 0 ==> Expanded(f, x', y')
      ensures Reachable(f0, x, y, x', y')
    {
      assert (x', y') in popped;
      assert PathTo(f0, x, y, paths[(x', y')], (x', y'));
    }
    AdjacentMinesFrame(f0, f, x, y);
  }

  /**
   * Opens the tile at (x, y) and, through a work list, every tile reachable
   * from it across tiles that have no mined neighbour. A coordinate may be
   * pushed more than once before it is popped; the loop still ends, because
   * each turn either opens a tile or drops an entry whose tile is already
   * opened.
   */
  method OpenFloodfill(s: SweeperState, x: int, y: int)
    requires Rectangular(s.field) && InBounds(s.field, x, y)
    modifies s`field
    ensures FloodFilled(old(s.field), s.field, x, y)
    ensures Settled(s.field, x, y)
    ensures Settled(old(s.field), x, y) ==> s.field == old(s.field)
    ensures s.gameStatus == old(s.gameStatus) && s.mined == old(s.mined) && s.mines == old(s.mines)
    ensures s.beginTime == old(s.beginTime) && s.openedCount == old(s.openedCount)
  {
    if s.TileAt(x, y).mined {
      MinedSeed(s.field, x, y);
      return;
    }
    ghost var f0 := s.field;
    var stack: seq<(int, int)> := [(x, y)];
    ghost var popped: set<(int, int)> := {};
    ghost var paths: map<(int, int), seq<(int, int)>> := map[(x, y) := [(x, y)]];
    FillStart(f0, x, y);
    while |stack| > 0
      invariant FillInvariant(f0, s.field, stack, popped, x, y)
      invariant PathsKept(f0, x, y, stack, popped, paths)
      decreases UnopenedTiles(s.field), OpenedEntries(s.field, stack)
    {
      ghost var before: Field := s.field;
      PopFacts(f0, before, stack, popped, x, y);
      var p: (int, int) := stack[|stack| - 1];
      var rest := stack[..|stack| - 1];
      s.field := OpenCell(s.field, p.0, p.1);
      var more: seq<(int, int)> := [];
      var n := CountAdjacentMines(p.0, p.1, s);
      if n == 0 {
        more := FindEmptyAdjacent(p.0, p.1, s);
      }
      ghost var stack0, popped0 := stack, popped;
      stack := rest + more;
      popped := popped + {p};
      FillTurn(f0, before, stack0, popped0, x, y, p, rest, more, s.field, stack, popped, paths);
      paths := ExtendPaths(paths, p, more);
    }
    FillDone(f0, s.field, popped, paths, x, y);
  }

  /** The character a decimal digit 0..9 is written with. */
  function Digit(n: nat): (c: char)
    requires n < 10
    ensures '0' <= c <= '9' && c as int - '0' as int == n
  {
    ('0' as int + n) as char
  }

  /**
   * The key of the sprite a tile is drawn with: "x" for a mine once the
   * game is over, else the number of mined neighbours if the tile is
   * opened, else "f" if it is flagged, else a blank.
   */
  function Sprite(s: SweeperState, t: Tile): (key: string)
    reads s
    requires Rectangular(s.field)
    ensures key == "x" <==> s.gameStatus.IsOver() && t.mined
    ensures key == "f" <==> !(s.gameStatus.IsOver() && t.mined) && !t.open && t.flagged
    ensures key == " " <==> !(s.gameStatus.IsOver() && t.mined) && !t.open && !t.flagged
    ensures !(s.gameStatus.IsOver() && t.mined) && t.open ==>
              |key| == 1 && '0' <= key[0] <= '8' && key[0] as int - '0' as int == AdjacentMines(s.field, t.pos.0, t.pos.1)
  {
    if s.gameStatus.IsOver() && t.mined then "x"
    else if t.open then
      AdjacentMinesAtMostEight(s.field, t.pos.0, t.pos.1);
      [Digit(AdjacentMines(s.field, t.pos.0, t.pos.1))]
    else if t.flagged then "f"
    else " "
  }
}
