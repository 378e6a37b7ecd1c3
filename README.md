# Minesweeper engine, modelled in Dafny

This project models the engine of a small minesweeper game. The model covers:

- the game state: the grid of tiles and its counters;
- how the mines around a tile are counted;
- the flood fill that opens empty regions;
- mine placement, which waits for the first click so that the first tile opened never holds a mine;
- the open and flag actions, and the record saved when a game ends;
- the mouse handler that turns a pixel into a tile.

The files are:

- `state.dfy` (module `State`): the game status, tiles, the grid and the `SweeperState` object from `state.py`.
- `util.dfy` (module `Util`): neighbour counting, the empty-neighbour scan and the flood fill from `util.py`. It also holds `TileState.sprite`, because the sprite key needs the neighbour count. Keeping it in `State` would need an import cycle, and Dafny does not allow one.
- `stats.dfy` (module `Stats`): the statistics log from `stats.py`, reduced to appending one record.
- `game.dfy` (module `Game`): the actions of `game.py`.

How the source's parts are represented:

- The module-level `state` object is an explicit `SweeperState` argument. The statistics list is an explicit `Log` argument. The current time is an integer parameter `now`.
- The grid is `seq<seq<Tile>>`, with `Tile` a value. The source's in-place flag updates (`tile.opened = True`, `tile.mined = True`, `tile.flagged = not tile.flagged`) become reassignments of the one changed cell of the `field` field.
- `random.shuffle` is a nondeterministic choice of any permutation of the candidate list.
- A failing `pop` on an empty list raises `IndexError` in the source. The model returns `ok == false`, which stops the calling actions the same way.

The docstring of `count_adjacent_mines` (util.py:7-10) says a mine on the centre tile is counted as well. The code skips the centre (util.py:16-17), and the model follows the code: see `Util.CentreNotCounted`.

`OpenTile` is split into two steps. `SetupField` handles the deferred mine placement, and `OpenArmed` handles the rest of `open_tile`. The split keeps each proof small. The behaviour is that of the single Python function, stated by the predicate `OpenOutcome`.

## Model

| member | source | states |
|---|---|---|
| State.GameStatus.IsOver | state.py:20-21 | a status counts as true exactly when the game is lost or won |
| State.FreshTile | state.py:28-34 | a tile is created at its position, unopened, unmined and unflagged |
| State.FreshRows | state.py:102-108 | `init_field` appends `height` rows of `width` tiles each, or none for a negative argument |
| State.SweeperState.constructor | state.py:59-64 | a new state has no field, is running and unmined, and has 100 mines and no turns |
| State.SweeperState.Height | state.py:66-72 | the height is zero exactly when there is no field |
| State.SweeperState.Width | state.py:74-80 | on a valid grid every row is as long as the width |
| State.SweeperState.TileAt | state.py:82-90 | the tile at (x, y) is `field[y][x]`; negative indices count from the end as in a list; on a valid grid the tile's position is the wrapped (x, y) |
| State.SweeperState.IsInBounds | state.py:110-118 | true exactly when 0 <= y < height and 0 <= x < width; an in-bounds tile of a valid grid is at (x, y) |
| State.SweeperState.InitField | state.py:92-108 | appends the fresh rows and records the start time, leaving every other field alone; from an empty field the grid is valid and width × height, and every tile is unopened, unmined and unflagged |
| State.SweeperState.CountRemaining | state.py:120-133 | returns the number of tiles that are neither mined nor opened; it is zero exactly when every tile is mined or opened, and at most width × height |
| State.SweeperState.Reset | state.py:135-144 | no field, running, unmined, 100 mines, no turns, and a new start time |
| State.RectangleSize | state.py:120-133 | a width × height rectangle holds width * height positions, which bounds the remaining count |
| State.RemainingAtMostArea | state.py:120-133 | no more tiles remain than the grid has |
| State.NoneRemainingIff | state.py:120-133 | the remaining count is zero exactly when every tile is mined or opened (the win test) |
| State.RemainingStep | state.py:128-131 | scanning a tile raises the count of remaining tiles seen by one exactly when the tile remains |
| Util.AdjacentMinesAtMostEight | util.py:6-24 | a tile has at most eight mined neighbours |
| Util.AdjacentMinesFrame | util.py:14-22 | the count depends only on the mines of the in-bounds neighbours |
| Util.CentreNotCounted | util.py:16-17 | replacing the centre tile, even by a mined one, leaves the count unchanged |
| Util.NoMinesNoCount | util.py:21-22 | on a grid without mines every count is zero |
| Util.CountAdjacentMines | util.py:6-24 | the 3 × 3 scan returns the number of mined in-bounds neighbours, which is at most 8 |
| Util.FindEmptyAdjacent | util.py:27-45 | returns exactly the in-bounds, non-centre neighbours that are unmined and unopened (flagged ones included), each once, in row-major order |
| Util.OpenCell | util.py:60 | the grid with exactly that tile opened; every other tile is unchanged |
| Util.OpenCellIdempotent | util.py:60 | opening an already opened tile changes nothing |
| Util.MinedTilesKept | util.py:57-65 | a flood fill keeps the set of mined tiles |
| Util.OpenedEntriesAppend | util.py:65 | pushing entries whose tiles are unopened adds no entry whose tile is opened |
| Util.FillProgress | util.py:57-65 | each turn opens a tile, or drops an entry whose tile was already opened: the pair (unopened tiles, opened entries) decreases, so the loop ends even though a coordinate can be pushed twice |
| Util.FillTurn | util.py:57-65 | a turn keeps the loop invariant (tiles only opened and never a mined one; every popped tile with no mined neighbour has its unmined neighbours opened or waiting; every entry has a zero path from the seed) and decreases the measure |
| Util.PathAppend | util.py:62-65 | a walk from the seed through tiles with no mined neighbour extends to any unmined, unopened neighbour of its last tile when that tile has no mined neighbour either |
| Util.PathsStep | util.py:58-65 | after a turn, every waiting or popped entry is reachable from the seed without passing through a tile that shows a number, because only a tile with no mined neighbour pushes its neighbours, and only unopened ones |
| Util.NumberSeedStops | util.py:48-63 | a fill whose seed shows a number opens that seed and leaves every other tile as it was |
| Util.MinedSeed | util.py:52-53 | a flood fill from a mined seed has nothing to do |
| Util.FillDone | util.py:57-65 | with the work list empty, the invariant gives the flood fill's promise |
| Util.OpenFloodfill | util.py:48-65 | only opens tiles, never a mined one, and changes neither mines nor flags; a mined seed changes nothing; otherwise the seed is opened, and the seed and every newly opened tile with no mined neighbour have all their unmined neighbours opened; it stops at number tiles: every tile it opens is reached from the seed by a walk between neighbours whose tiles, except the last, have no mined neighbour, and whose tiles after the seed were all unopened before the fill; the result is settled, and a settled grid is left unchanged, so a second fill from the same seed changes nothing |
| Util.Digit | state.py:46 | the character of a digit 0..9 |
| Util.Sprite | state.py:36-51 | the key is "x" exactly when the game is over and the tile mined; otherwise the neighbour count as one digit if opened; otherwise "f" if flagged; otherwise a blank |
| Stats.Log.constructor | stats.py:9 | the log starts empty |
| Stats.Log.AddStatistic | stats.py:12-34 | appends one record with the seven given values and keeps the earlier records |
| Game.MarkCell | game.py:27 | the grid with exactly that tile mined; every other tile is unchanged |
| Game.MarkMines | game.py:24-27 | after mining the listed positions, a tile is mined exactly when it already was or its position is listed; positions, opened and flagged flags are kept |
| Game.MarkMinesCount | game.py:15-27 | mining k distinct positions of a grid without mines leaves exactly those k tiles mined |
| Game.PlaceMines | game.py:15-27 | the shuffle is a permutation of the candidates; when there are enough candidates, the first `amount` are mined and exactly `amount` entries are removed from the list; otherwise the pop fails after every candidate is mined |
| Game.CandidatesMembers | game.py:37-44 | the candidate list holds exactly the grid positions other than (x, y) |
| Game.CandidatesSorted | game.py:39-44 | the candidates are listed in strictly increasing row-major order |
| Game.CandidatesLength | game.py:39-44 | there are width × height - 1 candidates when (x, y) is on the grid, and width × height otherwise |
| Game.SortedNoRepeats | game.py:39-44 | a list in strictly increasing row-major order holds no position twice |
| Game.CandidatesVersusArea | game.py:37-46 | on a grid holding (x, y), the candidates suffice exactly when there are fewer mines than tiles |
| Game.SetUpHolds | game.py:37-47 | placing mines at a shuffle of the candidates only adds mines, leaves (x, y) as it was, and on a grid without mines places exactly `mines` of them |
| Game.SetupOutcomeHolds | game.py:30-47 | the list loop, the shuffle and the placement together give the outcome of `setup_field` |
| Game.SetupField | game.py:30-47 | lists the candidates, places the mines among a shuffle of them, and marks the field mined exactly when the placement succeeded |
| Game.ArmedBySetup | game.py:60-61 | the placement at the first click arms the field as `open_tile` needs; it only adds mines, even when it fails |
| Game.FlagResult | game.py:82-98 | a tile's flag changes exactly when the game is running and the tile is unopened; nothing else changes |
| Game.FlagTwiceRestores | game.py:82-98 | flagging the same tile twice restores the grid |
| Game.FlagTile | game.py:82-98 | the grid becomes the flag result for the current status |
| Game.SaveCurrent | game.py:108-113 | appends the record of the current game: start time, `now`, turns, whether it is won, width, height and mines |
| Game.End | game.py:101-105 | appends exactly one record of the game |
| Game.OpenArmed | game.py:63-79 | a flagged tile changes nothing. Otherwise the turn count goes up by one. A mined tile sets LOST and appends one record. Any other tile is flood-filled; the game is WON with one record exactly when no tile remains, and otherwise the status and log are unchanged |
| Game.OpenTile | game.py:50-79 | mines the field around (x, y) if it was not mined yet; a failed placement stops the action. The rest is as in `OpenArmed`; the grid stays well formed |
| Game.FirstClickSafe | game.py:60-75 | after the first open on a grid without mines, the field is mined and holds exactly `mines` mines, none of them at (x, y), so that click cannot set LOST |
| Game.FirstClickArms | game.py:46 | with the menu's limits (0 < mines < width × height) the first click's placement never runs out of candidates |
| Game.HandleMouse | game.py:135-147 | a click picks the tile (px // 40, py // 40); nothing happens once the game has ended, off the grid, or for the middle button; otherwise the left button opens and the right button flags that tile |
| Game.StartGame | game.py:150-156 | sets the mine count and builds the fresh width × height grid: every tile at its own position, unopened, unmined and unflagged; the status and turn count are unchanged |

## Left out

- Drawing and the window. `draw_field`, the `sweeperlib` calls in `main` and the sprite images are left out; only the sprite key is modelled.
- The menu. Its interactive input loops are left out. Its limits (positive height and width, 0 < mines < height × width) appear as the requires of `Game.StartGame` and in `Game.FirstClickArms`.
- The statistics file. Writing the JSON file, loading it and printing the table are left out. `add_statistic` only appends a record, and the timestamps are opaque integers rather than `datetime` values.
- The shuffle's distribution. `random.shuffle` may produce any permutation; how likely each one is is not modelled.
- Class-level defaults. `SweeperState` and `TileState` declare their fields at class level, so a list such as `field = []` is shared between instances until it is reassigned. The model gives every state its own fields.
- Tiles as objects. A `TileState` holds a reference back to the state, which its sprite uses. In the model a tile is a value, and `Util.Sprite` takes the state as an argument.
- The `mod` argument of `handle_mouse` is unused by the source and is not a parameter.
- Game.OpenTile, Game.FlagTile, Util.OpenFloodfill: these require (x, y) to lie on the grid. In the source they are reached only through `handle_mouse`, which checks that. Negative coordinates, which would wrap around in Python, are modelled only in `State.SweeperState.TileAt`.
- Game.OpenTile: after a failed placement, the outcome says only that mines were added. That every candidate was mined is stated by `Game.SetupField`, through `SetupOutcome`.
- Game.StartGame: it requires a fresh state with an empty field, which is the state `main` runs on. `init_field` on a non-empty field is covered by `State.SweeperState.InitField`.
- The `IndexError` exception. It is not modelled as an exception: the flag `ok` carries it through `SetupField`, `OpenTile` and `HandleMouse`.
