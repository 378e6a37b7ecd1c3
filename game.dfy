/**
 * The game's actions (game.py): mine placement deferred to the first click,
 * opening and flagging tiles, the end-of-game record and the mouse handler.
 * The module-level state object and the statistics log are passed in
 * explicitly; the current time is a parameter.
 */
module Game {
  import opened State
  import opened Util
  import opened Stats

  /** The grid after `tile_at(x, y).mined = True`. */
  function MarkCell(f: Field, x: int, y: int): (g: Field)
    requires 0 <= y < |f| && 0 <= x < |f[y]|
    ensures |g| == |f| && forall y' :: 0 <= y' < |g| ==> |g[y']| == |f[y']|
    ensures g[y][x] == f[y][x].(mined := true)
    ensures forall y', x' :: 0 <= y' < |g| && 0 <= x' < |g[y']| && (x', y') != (x, y) ==> g[y'][x'] == f[y'][x']
  {
    f[y := f[y][x := f[y][x].(mined := true)]]
  }

  /**
   * g differs from f at most in tiles that became mined: same shape, and
   * the same positions, opened and flagged flags.
   */
  ghost predicate OnlyMines(f: Field, g: Field)
  {
    && |g| == |f|
    && (forall y :: 0 <= y < |g| ==> |g[y]| == |f[y]|)
    && (forall y, x :: 0 <= y < |g| && 0 <= x < |g[y]| && x < |f[y]| ==>
          && g[y][x].pos == f[y][x].pos
          && g[y][x].open == f[y][x].open
          && g[y][x].flagged == f[y][x].flagged
          && (f[y][x].mined ==> g[y][x].mined))
  }

  /** Every coordinate of ts lies on the grid f. */
  predicate AllOnGrid(f: Field, ts: seq<(int, int)>)
  {
    forall t :: t in ts ==> InBounds(f, t.0, t.1)
  }

  /**
   * The grid after the mines at ts are placed one after the other: a tile
   * ends up mined exactly when it was mined already or its position is in ts.
   */
  function MarkMines(f: Field, ts: seq<(int, int)>): (g: Field)
    requires Rectangular(f) && AllOnGrid(f, ts)
    ensures OnlyMines(f, g) && Rectangular(g)
    ensures forall y, x :: 0 <= y < |g| && 0 <= x < |g[y]| ==> (g[y][x].mined <==> f[y][x].mined || (x, y) in ts)
    decreases |ts|
  {
    if ts == [] then f
    else
      var t := ts[|ts| - 1];
      assert forall q :: q in ts[..|ts| - 1] ==> q in ts;
      var h := MarkMines(f, ts[..|ts| - 1]);
      assert t in ts;
      MarkCell(h, t.0, t.1)
  }

  /** No value occurs twice in s. */
  ghost predicate NoRepeats(s: seq<(int, int)>)
  {
    forall v :: multiset(s)[v] <= 1
  }

  /** The distinct values of a sequence without repeats are as many as its entries. */
  lemma {:induction false} NoRepeatsCard(s: seq<(int, int)>)
    requires NoRepeats(s)
    ensures |set v | v in s| == |s|
  {
    if s != [] {
      var n := |s| - 1;
      var init := s[..n];
      assert s == init + [s[n]];
      assert multiset(s) == multiset(init) + multiset{s[n]};
      assert NoRepeats(init) by {
        forall v
          ensures multiset(init)[v] <= 1
        {
          assert multiset(init)[v] <= multiset(s)[v];
        }
      }
      NoRepeatsCard(init);
      assert s[n] !in init by {
        assert multiset(s)[s[n]] == multiset(init)[s[n]] + 1;
      }
      assert (set v | v in s) == (set v | v in init) + {s[n]};
    }
  }

  /** Taking a prefix keeps a sequence free of repeats. */
  lemma PrefixNoRepeats(s: seq<(int, int)>, k: nat)
    requires NoRepeats(s) && k <= |s|
    ensures NoRepeats(s[..k])
  {
    assert s == s[..k] + s[k..];
    assert multiset(s) == multiset(s[..k]) + multiset(s[k..]);
    forall v
      ensures multiset(s[..k])[v] <= 1
    {
      assert multiset(s[..k])[v] <= multiset(s)[v];
    }
  }

  /** A prefix of positions on the grid is on the grid. */
  lemma PrefixOnGrid(f: Field, s: seq<(int, int)>, k: nat)
    requires AllOnGrid(f, s) && k <= |s|
    ensures AllOnGrid(f, s[..k])
  {
    forall t | t in s[..k]
      ensures InBounds(f, t.0, t.1)
    {
      assert t in s;
    }
  }

  /**
   * Placing mines at k distinct positions on a grid without mines leaves
   * exactly k mined tiles, at those positions.
   */
  lemma MarkMinesCount(f: Field, ts: seq<(int, int)>)
    requires Rectangular(f) && AllOnGrid(f, ts) && NoRepeats(ts) && MinedTiles(f) == {}
    ensures MinedTiles(MarkMines(f, ts)) == set t | t in ts
    ensures |MinedTiles(MarkMines(f, ts))| == |ts|
  {
    var g := MarkMines(f, ts);
    forall t | t in ts
      ensures t in MinedTiles(g)
    {
      assert InBounds(f, t.0, t.1);
      assert g[t.1][t.0].mined;
    }
    forall t | t in MinedTiles(g)
      ensures t in ts
    {
      var y, x :| 0 <= y < |g| && 0 <= x < |g[y]| && g[y][x].mined && t == (x, y);
      assert (x, y) !in MinedTiles(f);
    }
    assert MinedTiles(g) == set t | t in ts;
    NoRepeatsCard(ts);
  }

  /** Mining the next entry of `order` extends the mined prefix by one. */
  lemma MarkNext(f: Field, order: seq<(int, int)>, i: nat)
    requires Rectangular(f) && AllOnGrid(f, order) && i < |order|
    ensures AllOnGrid(f, order[..i]) && AllOnGrid(f, order[..i + 1])
    ensures var g := MarkMines(f, order[..i]);
            0 <= order[i].1 < |g| && 0 <= order[i].0 < |g[order[i].1]| &&
            MarkMines(f, order[..i + 1]) == MarkCell(g, order[i].0, order[i].1)
  {
    PrefixOnGrid(f, order, i);
    PrefixOnGrid(f, order, i + 1);
    assert order[..i + 1][..i] == order[..i];
    assert order[i] in order;
  }

  /**
   * Shuffles the candidate positions into an arbitrary order and pops
   * `amount` of them from the front, mining each. Popping from an empty
   * list fails: then every candidate has been mined and `ok` is false.
   * Returns the shuffled order and what is left of the list.
   */
  method PlaceMines(s: SweeperState, tiles: seq<(int, int)>, amount: int)
    returns (order: seq<(int, int)>, rest: seq<(int, int)>, ok: bool)
    requires Rectangular(s.field) && AllOnGrid(s.field, tiles)
    modifies s`field
    ensures multiset(order) == multiset(tiles) && |order| == |tiles|
    ensures ok <==> RangeLength(amount) <= |tiles|
    ensures AllOnGrid(old(s.field), order)
    ensures ok ==> rest == order[RangeLength(amount)..] && |tiles| - |rest| == RangeLength(amount)
    ensures ok ==> s.field == MarkMines(old(s.field), order[..RangeLength(amount)])
    ensures !ok ==> rest == [] && s.field == MarkMines(old(s.field), order)
  {
    order :| multiset(order) == multiset(tiles);
    assert |order| == |multiset(order)| == |multiset(tiles)| == |tiles|;
    assert forall t :: t in order ==> t in multiset(tiles);
    rest := order;
    ok := true;
    PrefixOnGrid(old(s.field), order, 0);
    for i := 0 to RangeLength(amount)
      invariant i <= |order| && rest == order[i..]
      invariant AllOnGrid(old(s.field), order[..i])
      invariant s.field == MarkMines(old(s.field), order[..i])
    {
      if rest == [] {
        assert order[..i] == order;
        ok := false;
        return;
      }
      var tile := rest[0];
      MarkNext(old(s.field), order, i);
      rest := rest[1..];
      s.field := MarkCell(s.field, tile.0, tile.1);
    }
  }

  /** The cells (0, i) .. (n - 1, i) of row i, (x, y) left out. */
  function CandidateRow(x: int, y: int, i: int, n: nat): seq<(int, int)>
  {
    if n == 0 then []
    else CandidateRow(x, y, i, n - 1) + (if n - 1 == x && i == y then [] else [(n - 1, i)])
  }

  /**
   * The list `setup_field` builds on a width × m grid: every position
   * except (x, y), row by row.
   */
  function Candidates(width: nat, x: int, y: int, m: nat): seq<(int, int)>
  {
    if m == 0 then [] else Candidates(width, x, y, m - 1) + CandidateRow(x, y, m - 1, width)
  }

  /** Position p is in row i of the candidates when it is one of its first n cells other than (x, y). */
  lemma {:induction false} CandidateRowMember(x: int, y: int, i: int, n: nat, p: (int, int))
    ensures p in CandidateRow(x, y, i, n) <==> p.1 == i && 0 <= p.0 < n && p != (x, y)
  {
    if n > 0 {
      CandidateRowMember(x, y, i, n - 1, p);
    }
  }

  /** Row i of the candidates holds its first n cells except (x, y). */
  lemma CandidateRowMembers(x: int, y: int, i: int, n: nat)
    ensures forall p :: p in CandidateRow(x, y, i, n) <==> p.1 == i && 0 <= p.0 < n && p != (x, y)
  {
    forall p: (int, int) {
      CandidateRowMember(x, y, i, n, p);
    }
  }

  /** The entries of r stand in strictly increasing columns. */
  predicate ColumnsIncrease(r: seq<(int, int)>)
  {
    forall a, b :: 0 <= a < b < |r| ==> r[a].0 < r[b].0
  }

  /** The entries of c stand in strictly increasing row-major order. */
  predicate RowMajor(c: seq<(int, int)>)
  {
    forall a, b :: 0 <= a < b < |c| ==> Before(c[a], c[b])
  }

  /** Row i of the candidates runs left to right. */
  lemma {:induction false} CandidateRowSorted(x: int, y: int, i: int, n: nat)
    ensures ColumnsIncrease(CandidateRow(x, y, i, n))
  {
    if n > 0 {
      CandidateRowSorted(x, y, i, n - 1);
      CandidateRowMembers(x, y, i, n - 1);
      var r := CandidateRow(x, y, i, n - 1);
      if !(n - 1 == x && i == y) {
        var c := r + [(n - 1, i)];
        forall a, b | 0 <= a < b < |c|
          ensures c[a].0 < c[b].0
        {
          assert c[a] == r[a] && r[a] in r;
          if b < |r| {
            assert c[b] == r[b];
          }
        }
      } else {
        assert CandidateRow(x, y, i, n) == r;
      }
    }
  }

  /** Row i of the candidates has n cells, one fewer when (x, y) is among them. */
  lemma {:induction false} CandidateRowLength(x: int, y: int, i: int, n: nat)
    ensures |CandidateRow(x, y, i, n)| == if i == y && 0 <= x < n then n - 1 else n
  {
    if n > 0 {
      CandidateRowLength(x, y, i, n - 1);
    }
  }

  /** Position p is a candidate on a width × m grid when it lies on it and is not (x, y). */
  lemma {:induction false} CandidateMember(width: nat, x: int, y: int, m: nat, p: (int, int))
    ensures p in Candidates(width, x, y, m) <==> 0 <= p.1 < m && 0 <= p.0 < width && p != (x, y)
  {
    if m > 0 {
      var prev, row := Candidates(width, x, y, m - 1), CandidateRow(x, y, m - 1, width);
      CandidateMember(width, x, y, m - 1, p);
      CandidateRowMember(x, y, m - 1, width, p);
      assert Candidates(width, x, y, m) == prev + row;
      InConcat(prev, row, p);
    }
  }

  lemma InConcat<T>(a: seq<T>, b: seq<T>, e: T)
    ensures e in a + b <==> e in a || e in b
  {
  }

  /** The candidates on a width × m grid are exactly the positions on it other than (x, y). */
  lemma CandidatesMembers(width: nat, x: int, y: int, m: nat)
    ensures forall p :: p in Candidates(width, x, y, m) <==> 0 <= p.1 < m && 0 <= p.0 < width && p != (x, y)
  {
    forall p: (int, int) {
      CandidateMember(width, x, y, m, p);
    }
  }

  /** The candidates are listed in strictly increasing row-major order. */
  lemma {:induction false} CandidatesSorted(width: nat, x: int, y: int, m: nat)
    ensures RowMajor(Candidates(width, x, y, m))
  {
    if m > 0 {
      CandidatesSorted(width, x, y, m - 1);
      CandidatesMembers(width, x, y, m - 1);
      CandidateRowSorted(x, y, m - 1, width);
      CandidateRowMembers(x, y, m - 1, width);
      var prev := Candidates(width, x, y, m - 1);
      var row := CandidateRow(x, y, m - 1, width);
      var c := prev + row;
      forall a, b | 0 <= a < b < |c|
        ensures Before(c[a], c[b])
      {
        if b < |prev| {
          assert c[a] == prev[a] && c[b] == prev[b];
        } else if a >= |prev| {
          assert c[a] == row[a - |prev|] && c[b] == row[b - |prev|];
          assert row[a - |prev|] in row && row[b - |prev|] in row;
        } else {
          assert c[a] == prev[a] && prev[a] in prev;
          assert c[b] == row[b - |prev|] && row[b - |prev|] in row;
        }
      }
    }
  }

  /** There are width * m - 1 candidates when (x, y) is on the grid, width * m otherwise. */
  lemma {:induction false} CandidatesLength(width: nat, x: int, y: int, m: nat)
    ensures |Candidates(width, x, y, m)| == if 0 <= y < m && 0 <= x < width then width * m - 1 else width * m
  {
    if m > 0 {
      CandidatesLength(width, x, y, m - 1);
      CandidateRowLength(x, y, m - 1, width);
      assert width * m == width * (m - 1) + width;
    }
  }

  /** A list in strictly increasing row-major order holds no value twice. */
  lemma {:induction false} SortedNoRepeats(c: seq<(int, int)>)
    requires RowMajor(c)
    ensures NoRepeats(c)
  {
    if c != [] {
      var n := |c| - 1;
      var init := c[..n];
      assert c == init + [c[n]];
      SortedNoRepeats(init);
      assert c[n] !in init by {
        forall a | 0 <= a < n
          ensures init[a] != c[n]
        {
          assert Before(c[a], c[n]);
        }
      }
      assert multiset(c) == multiset(init) + multiset{c[n]};
    }
  }

  /**
   * What `setup_field(x, y)` promises when it succeeds on a grid holding
   * (x, y): it only adds mines, tile (x, y) is left as it was, and a grid
   * without mines gets exactly `mines` of them (none if `mines` is negative).
   */
  ghost predicate SetUp(f: Field, g: Field, x: int, y: int, mines: int)
    requires Rectangular(f) && InBounds(f, x, y)
  {
    && OnlyMines(f, g)
    && Rectangular(g)
    && (g[y][x].mined <==> f[y][x].mined)
    && (MinedTiles(f) == {} ==> |MinedTiles(g)| == RangeLength(mines))
  }

  /** A shuffle of the candidates never holds the seed (x, y), nor any prefix of it. */
  lemma SeedNotPlaced(cands: seq<(int, int)>, order: seq<(int, int)>, x: int, y: int, k: nat)
    requires (x, y) !in cands && multiset(order) == multiset(cands) && k <= |order|
    ensures (x, y) !in order[..k]
  {
    forall t | t in order[..k]
      ensures t in multiset(cands)
    {
      assert t in order;
    }
  }

  /** A shuffle of the candidates, like the candidates, holds no position twice. */
  lemma ShuffleNoRepeats(cands: seq<(int, int)>, order: seq<(int, int)>, k: nat)
    requires RowMajor(cands)
    requires multiset(order) == multiset(cands) && k <= |order|
    ensures NoRepeats(order[..k])
  {
    SortedNoRepeats(cands);
    assert NoRepeats(order);
    PrefixNoRepeats(order, k);
  }

  /** Mining a prefix of any shuffle of the candidates keeps the promise of `setup_field`. */
  lemma SetUpHolds(f: Field, order: seq<(int, int)>, x: int, y: int, mines: int)
    requires Rectangular(f) && InBounds(f, x, y)
    requires multiset(order) == multiset(Candidates(|f[0]|, x, y, |f|))
    requires RangeLength(mines) <= |order| && AllOnGrid(f, order[..RangeLength(mines)])
    ensures SetUp(f, MarkMines(f, order[..RangeLength(mines)]), x, y, mines)
  {
    var k := RangeLength(mines);
    var cands := Candidates(|f[0]|, x, y, |f|);
    CandidatesMembers(|f[0]|, x, y, |f|);
    CandidatesSorted(|f[0]|, x, y, |f|);
    SeedNotPlaced(cands, order, x, y, k);
    if MinedTiles(f) == {} {
      ShuffleNoRepeats(cands, order, k);
      MarkMinesCount(f, order[..k]);
    }
  }

  /** On a grid holding (x, y), the candidates outnumber the mines exactly when the tiles do with one to spare. */
  lemma CandidatesVersusArea(f: Field, order: seq<(int, int)>, x: int, y: int, mines: int)
    requires f != [] && InBounds(f, x, y)
    requires |order| == |Candidates(|f[0]|, x, y, |f|)|
    ensures RangeLength(mines) <= |order| <==> RangeLength(mines) < Area(f)
  {
    CandidatesLength(|f[0]|, x, y, |f|);
  }

  /**
   * What `setup_field(x, y)` does to the grid f0, leaving g: the candidates,
   * every position except (x, y) row by row, are shuffled into `order`,
   * and the first `mines` of them are mined. Too many mines for the
   * candidates makes the placement fail with every candidate mined.
   */
  ghost predicate SetupOutcome(f0: Field, order: seq<(int, int)>, x: int, y: int, mines: int, ok: bool, g: Field)
    requires Rectangular(f0) && f0 != []
  {
    && multiset(order) == multiset(Candidates(|f0[0]|, x, y, |f0|))
    && AllOnGrid(f0, order)
    && (ok <==> RangeLength(mines) <= |order|)
    && (InBounds(f0, x, y) ==> (ok <==> RangeLength(mines) < Area(f0)))
    && (ok ==> g == MarkMines(f0, order[..RangeLength(mines)]))
    && (!ok ==> g == MarkMines(f0, order))
    && (ok && InBounds(f0, x, y) ==> SetUp(f0, g, x, y, mines))
  }

  /** Placing mines among a shuffle of the candidates gives the outcome of `setup_field`. */
  lemma SetupOutcomeHolds(f0: Field, tiles: seq<(int, int)>, order: seq<(int, int)>, x: int, y: int, mines: int,
                          ok: bool, g: Field)
    requires Rectangular(f0) && f0 != []
    requires tiles == Candidates(|f0[0]|, x, y, |f0|)
    requires multiset(order) == multiset(tiles) && |order| == |tiles|
    requires AllOnGrid(f0, order)
    requires ok <==> RangeLength(mines) <= |tiles|
    requires ok ==> g == MarkMines(f0, order[..RangeLength(mines)])
    requires !ok ==> g == MarkMines(f0, order)
    ensures SetupOutcome(f0, order, x, y, mines, ok, g)
  {
    if InBounds(f0, x, y) {
      CandidatesVersusArea(f0, order, x, y, mines);
      if ok {
        PrefixOnGrid(f0, order, RangeLength(mines));
        SetUpHolds(f0, order, x, y, mines);
      }
    }
  }

  /**
   * Mine placement around a tile on the grid arms the field as `open_tile`
   * needs, and whether it succeeds or not it only adds mines.
   */
  lemma ArmedBySetup(f0: Field, order: seq<(int, int)>, x: int, y: int, mines: int, ok: bool, g: Field)
    requires Rectangular(f0) && InBounds(f0, x, y)
    requires SetupOutcome(f0, order, x, y, mines, ok, g)
    ensures Armed(f0, false, g, x, y, mines, ok)
    ensures OnlyMines(f0, g)
  {
  }

  /**
   * Mines the field, leaving (x, y) free: lists every position except
   * (x, y) row by row, places `mines` mines among them and records that the
   * field is mined. Too many mines for the candidates makes the placement
   * fail, with the field not recorded as mined.
   */
  method SetupField(s: SweeperState, x: int, y: int) returns (ghost order: seq<(int, int)>, ok: bool)
    requires Rectangular(s.field) && s.field != []
    modifies s`field, s`mined
    ensures SetupOutcome(old(s.field), order, x, y, s.mines, ok, s.field)
    ensures s.mined == (ok || old(s.mined))
  {
    var tiles: seq<(int, int)> := [];
    ghost var width, height := s.Width(), s.Height();
    for i := 0 to s.Height()
      invariant tiles == Candidates(width, x, y, i)
    {
      for j := 0 to s.Width()
        invariant tiles == Candidates(width, x, y, i) + CandidateRow(x, y, i, j)
      {
        if j == x && i == y {
          continue;
        }
        tiles := tiles + [(j, i)];
      }
    }
    CandidatesMembers(width, x, y, height);
    ghost var f0 := s.field;
    var shuffled, rest;
    shuffled, rest, ok := PlaceMines(s, tiles, s.mines);
    order := shuffled;
    SetupOutcomeHolds(f0, tiles, order, x, y, s.mines, ok, s.field);
    if ok {
      s.mined := true;
    }
  }

  /**
   * The grid after `flag_tile(x, y)` on a game with the given status:
   * unchanged once the game has ended or when the tile is opened, otherwise
   * with the flag of that one tile toggled.
   */
  function FlagResult(f: Field, status: GameStatus, x: int, y: int): (g: Field)
    requires 0 <= y < |f| && 0 <= x < |f[y]|
    ensures |g| == |f| && forall y' :: 0 <= y' < |g| ==> |g[y']| == |f[y']|
    ensures forall y', x' :: 0 <= y' < |g| && 0 <= x' < |g[y']| && (x', y') != (x, y) ==> g[y'][x'] == f[y'][x']
    ensures g[y][x].pos == f[y][x].pos && g[y][x].open == f[y][x].open && g[y][x].mined == f[y][x].mined
    ensures g[y][x].flagged != f[y][x].flagged <==> !status.IsOver() && !f[y][x].open
  {
    if status.IsOver() || f[y][x].open then f
    else f[y := f[y][x := f[y][x].(flagged := !f[y][x].flagged)]]
  }

  /** Flagging the same tile twice, with the status unchanged, restores the grid. */
  lemma FlagTwiceRestores(f: Field, status: GameStatus, x: int, y: int)
    requires 0 <= y < |f| && 0 <= x < |f[y]|
    ensures FlagResult(FlagResult(f, status, x, y), status, x, y) == f
  {
    var g := FlagResult(f, status, x, y);
    var h := FlagResult(g, status, x, y);
    assert h[y][x] == f[y][x];
    assert forall y' :: 0 <= y' < |h| ==> h[y'] == f[y'];
  }

  /**
   * Places or removes the flag of the tile at (x, y): nothing happens once
   * the game has ended or when the tile is opened.
   */
  method FlagTile(s: SweeperState, x: int, y: int)
    requires Rectangular(s.field) && InBounds(s.field, x, y)
    modifies s`field
    ensures s.field == FlagResult(old(s.field), s.gameStatus, x, y)
  {
    if s.gameStatus.IsOver() {
      return;
    }
    var tile := s.TileAt(x, y);
    if tile.open {
      return;
    }
    s.field := s.field[y := s.field[y][x := tile.(flagged := !tile.flagged)]];
  }

  /**
   * The record `save_current` makes of a game that began at `begin`, ends
   * at `now`, took `turns` turns, stands at `status` and is played on `f`
   * with `mines` mines.
   */
  function Summary(begin: int, now: int, turns: int, status: GameStatus, f: Field, mines: int): Statistic
    requires f != []
  {
    Statistic(begin, now, turns, status == Won, |f[0]|, |f|, mines)
  }

  /** Adds the record of the current game to the log. */
  method SaveCurrent(s: SweeperState, log: Log, now: int)
    requires s.field != []
    modifies log`stats
    ensures log.stats == old(log.stats) + [Summary(s.beginTime, now, s.openedCount, s.gameStatus, s.field, s.mines)]
    ensures log.stats[|log.stats| - 1].win <==> s.gameStatus == Won
  {
    log.AddStatistic(s.beginTime, now, s.openedCount, s.gameStatus == Won, s.Width(), s.Height(), s.mines);
  }

  /** The ending logic: saves the record of the game. */
  method End(s: SweeperState, log: Log, now: int)
    requires s.field != []
    modifies log`stats
    ensures log.stats == old(log.stats) + [Summary(s.beginTime, now, s.openedCount, s.gameStatus, s.field, s.mines)]
  {
    SaveCurrent(s, log, now);
  }

  /** On a grid without mines, no tile is mined. */
  lemma NoMineAt(f: Field, x: int, y: int)
    requires MinedTiles(f) == {} && 0 <= y < |f| && 0 <= x < |f[y]|
    ensures !f[y][x].mined
  {
    assert f[y][x].mined ==> (x, y) in MinedTiles(f);
  }

  /** The parts of a game that opening a tile may change, and the statistics log. */
  datatype Play = Play(field: Field, mined: bool, turns: int, status: GameStatus, stats: seq<Statistic>)

  /**
   * What opening (x, y) does to the game `q`, whose field is already mined,
   * leaving the game `p`: a flagged tile is left alone; otherwise the turn
   * counter goes up, a mined tile loses the game and is recorded, and
   * anything else is flood-filled and wins the game, recorded, once no tile
   * remains to be opened.
   */
  ghost predicate OpenedArmed(q: Play, p: Play, x: int, y: int, begin: int, mines: int, now: int)
    requires Rectangular(q.field) && InBounds(q.field, x, y)
  {
    if q.field[y][x].flagged then
      p == q
    else if q.field[y][x].mined then
      p == q.(turns := q.turns + 1, status := Lost,
              stats := q.stats + [Summary(begin, now, q.turns + 1, Lost, q.field, mines)])
    else
      && FloodFilled(q.field, p.field, x, y)
      && p.mined == q.mined && p.turns == q.turns + 1
      && (RemainingTiles(p.field) == {} ==>
            p.status == Won && p.stats == q.stats + [Summary(begin, now, p.turns, Won, p.field, mines)])
      && (RemainingTiles(p.field) != {} ==> p.status == q.status && p.stats == q.stats)
  }

  /**
   * The deferred mine placement of `open_tile(x, y)` on the grid `f`: a
   * grid already mined is used as it is; otherwise it is mined around
   * (x, y), which succeeds exactly when there are fewer mines than tiles;
   * a placement that fails has still added mines.
   */
  ghost predicate Armed(f: Field, mined: bool, armed: Field, x: int, y: int, mines: int, ok: bool)
    requires Rectangular(f) && InBounds(f, x, y)
  {
    if mined then ok && armed == f
    else
      && (ok <==> RangeLength(mines) < Area(f))
      && (ok ==> SetUp(f, armed, x, y, mines))
      && (!ok ==> OnlyMines(f, armed))
  }

  /**
   * What `open_tile(x, y)` does, relating the game `p0` before the call to
   * the game `p` after it. `armed` is the grid once the deferred mine
   * placement has run; `ok` is false when that placement ran out of
   * candidates, which stops the action with the grid as the placement
   * left it.
   */
  ghost predicate OpenOutcome(p0: Play, p: Play, x: int, y: int, begin: int, mines: int, now: int, ok: bool, armed: Field)
    requires Rectangular(p0.field) && InBounds(p0.field, x, y)
  {
    && Armed(p0.field, p0.mined, armed, x, y, mines, ok)
    && (!ok ==> p == p0.(field := armed))
    && (ok ==> Rectangular(armed) && OpenedArmed(p0.(field := armed, mined := true), p, x, y, begin, mines, now))
  }

  /** Mining a grid keeps every tile where it was. */
  lemma MinesKeepWellFormed(f: Field, g: Field)
    requires WellFormed(f) && OnlyMines(f, g)
    ensures WellFormed(g)
  {
  }

  /** Opening tiles keeps every tile where it was. */
  lemma OpensKeepWellFormed(f: Field, g: Field)
    requires WellFormed(f) && OnlyOpens(f, g) && Rectangular(g)
    ensures WellFormed(g)
  {
  }

  /**
   * The part of `open_tile(x, y)` that follows the deferred mine placement:
   * a flagged tile is left alone; otherwise the turn counter goes up, a
   * mined tile loses the game, and anything else is flood-filled and wins
   * the game once no tile remains to be opened.
   */
  method OpenArmed(s: SweeperState, log: Log, x: int, y: int, now: int)
    requires WellFormed(s.field) && InBounds(s.field, x, y)
    modifies s`field, s`openedCount, s`gameStatus, log`stats
    ensures OpenedArmed(old(Play(s.field, s.mined, s.openedCount, s.gameStatus, log.stats)),
                        Play(s.field, s.mined, s.openedCount, s.gameStatus, log.stats),
                        x, y, s.beginTime, s.mines, now)
    ensures WellFormed(s.field)
  {
    var tile := s.TileAt(x, y);
    if tile.flagged {
      return;
    }
    s.openedCount := s.openedCount + 1;
    if tile.mined {
      s.gameStatus := Lost;
      End(s, log, now);
      return;
    }
    OpenFloodfill(s, x, y);
    OpensKeepWellFormed(old(s.field), s.field);
    var remaining := s.CountRemaining();
    if remaining == 0 {
      s.gameStatus := Won;
      End(s, log, now);
    }
  }

  /** Opening the tile once the field is armed completes the outcome of `open_tile`. */
  lemma OutcomeOfArmed(p0: Play, q: Play, p: Play, x: int, y: int, begin: int, mines: int, now: int, armed: Field)
    requires Rectangular(p0.field) && InBounds(p0.field, x, y)
    requires Armed(p0.field, p0.mined, armed, x, y, mines, true)
    requires q == p0.(field := armed, mined := true) && Rectangular(armed)
    requires OpenedArmed(q, p, x, y, begin, mines, now)
    ensures OpenOutcome(p0, p, x, y, begin, mines, now, true, armed)
  {
  }

  /** A mine placement that runs out of candidates ends `open_tile` with the grid it left. */
  lemma OutcomeOfFailure(p0: Play, p: Play, x: int, y: int, begin: int, mines: int, now: int, armed: Field)
    requires Rectangular(p0.field) && InBounds(p0.field, x, y)
    requires Armed(p0.field, p0.mined, armed, x, y, mines, false)
    requires p == p0.(field := armed)
    ensures OpenOutcome(p0, p, x, y, begin, mines, now, false, armed)
  {
  }

  /**
   * Opens the tile at (x, y). On the first click the field is mined first,
   * leaving (x, y) free; the rest is `OpenArmed`.
   */
  method OpenTile(s: SweeperState, log: Log, x: int, y: int, now: int) returns (ghost armed: Field, ok: bool)
    requires WellFormed(s.field) && InBounds(s.field, x, y)
    modifies s`field, s`mined, s`openedCount, s`gameStatus, log`stats
    ensures OpenOutcome(old(Play(s.field, s.mined, s.openedCount, s.gameStatus, log.stats)),
                        Play(s.field, s.mined, s.openedCount, s.gameStatus, log.stats),
                        x, y, s.beginTime, s.mines, now, ok, armed)
    ensures WellFormed(s.field)
  {
    ghost var p0 := Play(s.field, s.mined, s.openedCount, s.gameStatus, log.stats);
    ok := true;
    if !s.mined {
      ghost var order;
      order, ok := SetupField(s, x, y);
      armed := s.field;
      ArmedBySetup(p0.field, order, x, y, s.mines, ok, armed);
      MinesKeepWellFormed(p0.field, armed);
    } else {
      armed := s.field;
    }
    if !ok {
      OutcomeOfFailure(p0, Play(s.field, s.mined, s.openedCount, s.gameStatus, log.stats), x, y, s.beginTime, s.mines, now, armed);
      return;
    }
    ghost var q := Play(s.field, s.mined, s.openedCount, s.gameStatus, log.stats);
    OpenArmed(s, log, x, y, now);
    OutcomeOfArmed(p0, q, Play(s.field, s.mined, s.openedCount, s.gameStatus, log.stats), x, y, s.beginTime, s.mines, now, armed);
  }

  /**
   * The first click is safe: opening a tile of a grid without mines places
   * exactly the configured number of mines, none of them on the tile
   * clicked, so the click cannot lose the game.
   */
  lemma FirstClickSafe(p0: Play, p: Play, x: int, y: int, begin: int, mines: int, now: int, ok: bool, armed: Field)
    requires Rectangular(p0.field) && InBounds(p0.field, x, y)
    requires OpenOutcome(p0, p, x, y, begin, mines, now, ok, armed)
    requires ok && !p0.mined && MinedTiles(p0.field) == {}
    ensures p.mined && InBounds(p.field, x, y) && !p.field[y][x].mined
    ensures |MinedTiles(p.field)| == RangeLength(mines)
    ensures p.status == Lost ==> p0.status == Lost
  {
    NoMineAt(p0.field, x, y);
    assert !armed[y][x].mined;
    if !armed[y][x].flagged {
      MinedTilesKept(armed, p.field);
    }
  }

  /** The side of a tile on screen, in pixels. */
  const TileSize := 40

  /** The mouse buttons the game tells apart. */
  datatype MouseButton = MouseLeft | MouseMiddle | MouseRight

  /** Flagging keeps every tile where it was. */
  lemma FlagKeepsWellFormed(f: Field, status: GameStatus, x: int, y: int)
    requires WellFormed(f) && InBounds(f, x, y)
    ensures WellFormed(FlagResult(f, status, x, y))
  {
  }

  /**
   * What a click at pixel (px, py) does to the game `p0`, leaving `p`: the
   * click picks the tile (px // 40, py // 40); nothing happens once the game
   * has ended, off the grid or for the middle button; the left button opens
   * the tile and the right button flags it.
   */
  ghost predicate MouseOutcome(p0: Play, p: Play, px: int, py: int, button: MouseButton,
                               begin: int, mines: int, now: int, ok: bool, armed: Field)
    requires Rectangular(p0.field)
  {
    var x, y := px / TileSize, py / TileSize;
    if p0.status.IsOver() || !InBounds(p0.field, x, y) || button == MouseMiddle then
      ok && p == p0
    else if button == MouseLeft then
      OpenOutcome(p0, p, x, y, begin, mines, now, ok, armed)
    else
      ok && p == p0.(field := FlagResult(p0.field, p0.status, x, y))
  }

  /**
   * The mouse handler: converts the pixel (px, py) to a tile and opens or
   * flags it, unless the game has ended or the tile is off the grid.
   */
  method HandleMouse(s: SweeperState, log: Log, px: int, py: int, button: MouseButton, now: int)
      returns (ghost armed: Field, ok: bool)
    requires WellFormed(s.field)
    modifies s`field, s`mined, s`openedCount, s`gameStatus, log`stats
    ensures MouseOutcome(old(Play(s.field, s.mined, s.openedCount, s.gameStatus, log.stats)),
                         Play(s.field, s.mined, s.openedCount, s.gameStatus, log.stats),
                         px, py, button, s.beginTime, s.mines, now, ok, armed)
    ensures WellFormed(s.field)
  {
    armed, ok := s.field, true;
    var x, y := px / TileSize, py / TileSize;
    if s.gameStatus.IsOver() || !s.IsInBounds(x, y) {
      return;
    }
    if button == MouseLeft {
      armed, ok := OpenTile(s, log, x, y, now);
    }
    if button == MouseRight {
      FlagKeepsWellFormed(s.field, s.gameStatus, x, y);
      FlagTile(s, x, y);
    }
  }

  /**
   * Starts a game on a fresh state: sets the mine count and builds a
   * width × height grid of fresh tiles. The menu only offers positive
   * sizes and a mine count below the number of tiles.
   */
  method StartGame(s: SweeperState, mines: int, width: int, height: int, now: int)
    requires s.field == []
    requires width > 0 && height > 0 && 0 < mines < width * height
    modifies s
    ensures WellFormed(s.field) && s.Height() == height && s.Width() == width
    ensures Area(s.field) == width * height
    ensures s.field == FreshRows(width, height)
    ensures forall y, x :: 0 <= y < height && 0 <= x < width ==>
              s.field[y][x].pos == (x, y) && !s.field[y][x].open && !s.field[y][x].mined && !s.field[y][x].flagged
    ensures MinedTiles(s.field) == {} && s.mined == old(s.mined) && s.mines == mines && s.beginTime == now
    ensures s.gameStatus == old(s.gameStatus) && s.openedCount == old(s.openedCount)
  {
    s.mines := mines;
    s.InitField(width, height, now);
    assert s.field == [] + FreshRows(width, height);
    NoMinesAtStart(s.field);
  }

  /** A grid none of whose tiles is mined has no mined tiles. */
  lemma NoMinesAtStart(f: Field)
    requires forall y, x :: 0 <= y < |f| && 0 <= x < |f[y]| ==> !f[y][x].mined
    ensures MinedTiles(f) == {}
  {
  }

  /**
   * On a game started with the menu's limits, the first click always
   * finds room for the mines: the placement cannot run out of candidates.
   */
  lemma FirstClickArms(f: Field, armed: Field, x: int, y: int, mines: int, ok: bool, width: int, height: int)
    requires Rectangular(f) && InBounds(f, x, y)
    requires Area(f) == width * height && 0 < mines < width * height
    requires Armed(f, false, armed, x, y, mines, ok)
    ensures ok
  {
  }
}
