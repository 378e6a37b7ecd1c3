/**
 * The game's state (state.py): the status of a game, the tiles and the
 * grid they form, and the object that holds the grid and the counters.
 */
module State {

  /** How a game stands: still running, or ended in a loss or a win. */
  datatype GameStatus = Running | Lost | Won {

    /** The truth value the status has in a condition: true exactly when the game has ended. */
    predicate IsOver()
      ensures IsOver() <==> this == Lost || this == Won
    {
      this != Running
    }
  }

  /** One tile of the grid: its (x, y) position and its three flags. */
  datatype Tile = Tile(pos: (int, int), open: bool, mined: bool, flagged: bool)

  /** A tile as it is created for position (x, y): unopened, unmined and unflagged. */
  function FreshTile(x: int, y: int): (t: Tile)
    ensures t.pos == (x, y) && !t.open && !t.mined && !t.flagged
  {
    Tile((x, y), false, false, false)
  }

  /** The grid: a list of rows, row y holding the tiles (0, y), (1, y), ... */
  type Field = seq<seq<Tile>>

  /** The number of values `range(n)` produces. */
  function RangeLength(n: int): nat
  {
    if n < 0 then 0 else n
  }

  /** The element a list of length n yields for index i: a negative index counts from the end. */
  function PyIndex(i: int, n: int): int
  {
    if i < 0 then i + n else i
  }

  /** Every row is as long as the first one. */
  predicate Rectangular(f: Field)
  {
    forall y :: 0 <= y < |f| ==> |f[y]| == |f[0]|
  }

  /** Every tile knows where it is: the tile in row y, column x has position (x, y). */
  predicate Positioned(f: Field)
  {
    forall y, x :: 0 <= y < |f| && 0 <= x < |f[y]| ==> f[y][x].pos == (x, y)
  }

  /** The shape a grid has when it was built from an empty field. */
  predicate WellFormed(f: Field)
  {
    Rectangular(f) && Positioned(f)
  }

  /** (x, y) lies on the grid: its row exists and x is below the width of the first row. */
  predicate InBounds(f: Field, x: int, y: int)
  {
    0 <= y < |f| && 0 <= x < |f[0]|
  }

  /** The rows `init_field(width, height)` appends: height rows of width fresh tiles. */
  function FreshRows(width: int, height: int): (rows: Field)
    ensures |rows| == RangeLength(height)
    ensures forall y :: 0 <= y < |rows| ==> |rows[y]| == RangeLength(width)
  {
    seq(RangeLength(height), y => seq(RangeLength(width), x => FreshTile(x, y)))
  }

  /** The number of tiles of a rectangular field: width × height. */
  function Area(f: Field): nat
  {
    if f == [] then 0 else |f[0]| * |f|
  }

  /** All positions of a field, row by row. */
  ghost function Cells(f: Field): set<(int, int)>
  {
    set y, x | 0 <= y < |f| && 0 <= x < |f[y]| :: (x, y)
  }

  /** A tile still to be opened for the game to be won. */
  predicate Remains(t: Tile)
  {
    !t.mined && !t.open
  }

  /** The positions of the tiles that are neither mined nor opened. */
  ghost function RemainingTiles(f: Field): set<(int, int)>
  {
    set y, x | 0 <= y < |f| && 0 <= x < |f[y]| && Remains(f[y][x]) :: (x, y)
  }

  /** The positions of the mined tiles. */
  ghost function MinedTiles(f: Field): set<(int, int)>
  {
    set y, x | 0 <= y < |f| && 0 <= x < |f[y]| && f[y][x].mined :: (x, y)
  }

  /** The positions of the tiles that are not opened. */
  ghost function UnopenedTiles(f: Field): set<(int, int)>
  {
    set y, x | 0 <= y < |f| && 0 <= x < |f[y]| && !f[y][x].open :: (x, y)
  }

  /** The width × height rectangle of positions. */
  ghost function Rectangle(width: nat, height: nat): set<(int, int)>
  {
    set y, x | 0 <= y < height && 0 <= x < width :: (x, y)
  }

  /** Row y of the rectangle: the positions (0, y) .. (width - 1, y). */
  ghost function RowCells(width: nat, y: int): set<(int, int)>
  {
    set x | 0 <= x < width :: (x, y)
  }

  lemma {:induction false} RowSize(width: nat, y: int)
    ensures |RowCells(width, y)| == width
  {
    if width > 0 {
      RowSize(width - 1, y);
      assert RowCells(width, y) == RowCells(width - 1, y) + {(width - 1, y)};
    }
  }

  /** The rectangle holds width * height positions. */
  lemma {:induction false} RectangleSize(width: nat, height: nat)
    ensures |Rectangle(width, height)| == width * height
  {
    if height > 0 {
      RectangleSize(width, height - 1);
      RowSize(width, height - 1);
      var prev := Rectangle(width, height - 1);
      var row := RowCells(width, height - 1);
      assert Rectangle(width, height) == prev + row by {
        forall p | p in Rectangle(width, height)
          ensures p in prev || p in row
        {
          if p.1 < height - 1 {
            assert p in prev;
          }
        }
      }
      assert prev !! row;
      assert |prev + row| == |prev| + |row|;
      MulStep(width, height);
    }
  }

  lemma MulStep(a: nat, b: nat)
    requires b > 0
    ensures a * b == a * (b - 1) + a
  {
  }

  /** The positions of a rectangular field form its width × height rectangle. */
  lemma CellsOfRectangular(f: Field)
    requires Rectangular(f) && |f| > 0
    ensures Cells(f) == Rectangle(|f[0]|, |f|)
  {
  }

  /**
   * The remaining tiles are at most all of them: for a rectangular field,
   * at most width * height.
   */
  lemma RemainingAtMostArea(f: Field)
    requires Rectangular(f) && |f| > 0
    ensures |RemainingTiles(f)| <= |f[0]| * |f|
  {
    CellsOfRectangular(f);
    RectangleSize(|f[0]|, |f|);
    var r := RemainingTiles(f);
    assert Cells(f) == r + (Cells(f) - r);
  }

  /** No tile remains exactly when every tile is mined or opened: the win test. */
  lemma NoneRemainingIff(f: Field)
    ensures |RemainingTiles(f)| == 0 <==>
            forall y, x :: 0 <= y < |f| && 0 <= x < |f[y]| ==> f[y][x].mined || f[y][x].open
  {
    forall y, x | 0 <= y < |f| && 0 <= x < |f[y]| && Remains(f[y][x])
      ensures (x, y) in RemainingTiles(f)
    {
    }
    if |RemainingTiles(f)| != 0 {
      var p :| p in RemainingTiles(f);
    }
  }

  /** The remaining tiles met before (x, y) by a row-by-row scan. */
  ghost function RemainingBefore(f: Field, x: int, y: int): set<(int, int)>
  {
    set y', x' | 0 <= y' < |f| && 0 <= x' < |f[y']| && (y' < y || (y' == y && x' < x)) && Remains(f[y'][x']) :: (x', y')
  }

  /** Scanning the tile at (x, y) adds it to the remaining tiles seen exactly when it remains. */
  lemma RemainingStep(f: Field, x: int, y: int)
    requires 0 <= y < |f| && 0 <= x < |f[y]|
    ensures |RemainingBefore(f, x + 1, y)| == |RemainingBefore(f, x, y)| + if Remains(f[y][x]) then 1 else 0
  {
    if Remains(f[y][x]) {
      assert RemainingBefore(f, x + 1, y) == RemainingBefore(f, x, y) + {(x, y)};
    } else {
      assert RemainingBefore(f, x + 1, y) == RemainingBefore(f, x, y);
    }
  }

  /** The end of row y is the start of row y + 1, and after the last row every remaining tile was seen. */
  lemma RemainingRows(f: Field, y: int)
    requires 0 <= y < |f|
    ensures RemainingBefore(f, |f[y]|, y) == RemainingBefore(f, 0, y + 1)
    ensures RemainingBefore(f, 0, |f|) == RemainingTiles(f)
    ensures RemainingBefore(f, 0, 0) == {}
  {
  }

  /**
   * The state of the game: the grid, whether the grid has been mined yet,
   * how many mines it gets, when the game began (an opaque timestamp), how
   * many tiles the player opened, and the status.
   */
  class SweeperState {
    var field: Field
    var gameStatus: GameStatus
    var mined: bool
    var mines: int
    var beginTime: int
    var openedCount: int

    /** The defaults a new state starts from: no field, running, unmined, 100 mines, no turns. */
    constructor (now: int)
      ensures field == [] && gameStatus == Running && !mined
      ensures mines == 100 && beginTime == now && openedCount == 0
    {
      field := [];
      gameStatus := Running;
      mined := false;
      mines := 100;
      beginTime := now;
      openedCount := 0;
    }

    /** The number of rows; zero exactly when no field has been set up. */
    function Height(): (h: nat)
      reads this
      ensures h == 0 <==> field == []
    {
      |field|
    }

    /** The length of the first row, which on a valid grid is the length of every row. */
    function Width(): (w: nat)
      reads this
      requires |field| > 0
      ensures WellFormed(field) ==> forall y :: 0 <= y < Height() ==> |field[y]| == w
    {
      |field[0]|
    }

    /**
     * The tile at column x, row y, indexing as a list does: negative
     * coordinates count from the far end of the row or the column.
     */
    function TileAt(x: int, y: int): (t: Tile)
      reads this
      requires -|field| <= y < |field|
      requires -|field[PyIndex(y, |field|)]| <= x < |field[PyIndex(y, |field|)]|
      ensures 0 <= x && 0 <= y ==> t == field[y][x]
      ensures WellFormed(field) ==> t.pos == (PyIndex(x, Width()), PyIndex(y, Height()))
    {
      var row := field[PyIndex(y, |field|)];
      row[PyIndex(x, |row|)]
    }

    /** Whether (x, y) is on the grid. */
    predicate IsInBounds(x: int, y: int)
      reads this
      ensures IsInBounds(x, y) <==> 0 <= y < Height() && 0 <= x < Width()
      ensures IsInBounds(x, y) && WellFormed(field) ==> TileAt(x, y).pos == (x, y)
    {
      InBounds(field, x, y)
    }

    /**
     * Appends `height` rows of `width` fresh tiles to the field and records
     * the start time. The rows are appended, not substituted: only from an
     * empty field is the result a width × height grid.
     */
    method InitField(width: int, height: int, now: int)
      modifies this
      ensures field == old(field) + FreshRows(width, height)
      ensures Height() == old(Height()) + RangeLength(height)
      ensures beginTime == now
      ensures gameStatus == old(gameStatus) && mined == old(mined)
      ensures mines == old(mines) && openedCount == old(openedCount)
      ensures old(field) == [] ==> WellFormed(field) && Height() == RangeLength(height)
      ensures old(field) == [] && height > 0 ==> Width() == RangeLength(width)
      ensures old(field) == [] ==>
                forall y, x :: 0 <= y < Height() && 0 <= x < |field[y]| ==>
                  !field[y][x].open && !field[y][x].mined && !field[y][x].flagged
    {
      beginTime := now;
      for y := 0 to RangeLength(height)
        invariant field == old(field) + FreshRows(width, y)
        invariant gameStatus == old(gameStatus) && mined == old(mined)
        invariant mines == old(mines) && openedCount == old(openedCount) && beginTime == now
      {
        var row: seq<Tile> := [];
        for x := 0 to RangeLength(width)
          invariant row == seq(x, i => FreshTile(i, y))
        {
          row := row + [FreshTile(x, y)];
        }
        assert FreshRows(width, y + 1) == FreshRows(width, y) + [row];
        field := field + [row];
      }
    }

    /** Counts the tiles that are neither mined nor opened: zero means the game is won. */
    method CountRemaining() returns (c: nat)
      ensures c == |RemainingTiles(field)|
      ensures c == 0 <==>
              forall y, x :: 0 <= y < |field| && 0 <= x < |field[y]| ==> field[y][x].mined || field[y][x].open
      ensures WellFormed(field) && field != [] ==> c <= Width() * Height()
    {
      c := 0;
      if field != [] {
        RemainingRows(field, 0);
      }
      for y := 0 to |field|
        invariant c == |RemainingBefore(field, 0, y)|
      {
        for x := 0 to |field[y]|
          invariant c == |RemainingBefore(field, x, y)|
        {
          RemainingStep(field, x, y);
          if !field[y][x].mined && !field[y][x].open {
            c := c + 1;
          }
        }
        RemainingRows(field, y);
      }
      NoneRemainingIff(field);
      if WellFormed(field) && field != [] {
        RemainingAtMostArea(field);
      }
    }

    /** Returns every property to its default: no field, running, unmined, 100 mines, no turns. */
    method Reset(now: int)
      modifies this
      ensures field == [] && gameStatus == Running && !mined
      ensures mines == 100 && beginTime == now && openedCount == 0
    {
      field := [];
      gameStatus := Running;
      mined := false;
      mines := 100;
      beginTime := now;
      openedCount := 0;
    }
  }
}
