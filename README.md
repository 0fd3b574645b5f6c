# simple-arcade-rs: a verified model of the game cores

simple-arcade-rs is a set of small Bevy games written in Rust: two versions of
Minesweeper, two versions of Snake, and a Pac-Man. Bevy is a game engine, and
each game keeps its rules apart from the engine: a grid of `Coord2D<i32>`
cells, a few structs whose methods update that grid in place, and some pure
helpers. This project models those rules in Dafny and proves what the games
rely on.

- **Coords and Directions** (`arcade-util`). `Coord2D` addition, the
  rectangle of cells that every board builds from `(0..w).flat_map(...)`, and
  its size w·h. The four directions, the quarter-turn table and the unit
  offsets.
- **MineGrid**. The cell logic that both minefields share:
  - `is_inside` and `neighbors`;
  - the tile map that `set_bomb` leaves behind;
  - the conditions under which `game_over` reports a loss or a win.

  The central fact is the invariant `Consistent`. It says: every grid cell
  has a tile; a mine cell holds `Mine`; every other cell holds
  `Number(k)` when k > 0 of its neighbours are mines, and `Empty` when none
  is.
- **Minesweeper** (the `minesweeper` crate). The class `Minefield` has the
  fields `width`, `height`, `tiles`, `revealed` and `flagged`, plus a ghost
  field `mines`:
  - `build` and `reset_minefield` lay mines one `set_bomb` at a time and
    keep `Consistent`;
  - `reveal_coord` is the recursive flood fill, and its answer is exactly
    the set of newly revealed cells;
  - `toggle_flag` flips one flag;
  - `game_over` is characterised by sets: a loss iff a mine is revealed, a
    win iff exactly the mine-free cells are revealed.
- **MinesweeperRs** (the `minesweeper-rs` crate). The earlier minefield
  without reveal or flags. It adds `adjacent_mines`, proved to count the
  neighbouring mines, and a `Default` with 40 mines on a 20 × 20 board.
- **SnakeRs, SnakeRsBoard and SnakeRsState** (the `snake-rs` crate):
  - the `Snake` class and its segment list;
  - the square `Board`;
  - `SnakeState::tick`, which moves, detects a game over and eats.
- **SnakeFood** (the `snake` crate's `food.rs`). The list of free cells that
  food may appear on, counted and in order, and the event listener that
  spawns one food item per event.
- **PacmanUtil, PacmanMaze and PacmanActor** (the `pacman` crate):
  - the tile alphabet;
  - the compiled-in 20 × 20 layout, parsed by `str::lines`, with facts proved
    about that concrete text;
  - the `Maze` class, whose `eat_food_at` updates the map in place;
  - the `Pacman` class with its wall gate and key-priority rule.

  `Maze::eat_food_at` is modelled and proved, but no system of the crate calls
  it: the plugin chains `rotate_pacman`, `move_pacman_forward` and
  `pacman_eating`, and the last of these only prints. `PacmanActor.Frame`
  therefore chains only the turn and the gated step.

Randomness and engine input become parameters:
- the cells `choose_multiple` picks are a caller-supplied sequence that
  meets the sampler's promise (distinct grid cells, as many as asked for or
  all of them);
- whether a timer fired is a `bool`, and the keys held down are a set;
- the next food cell is a parameter of `SnakeState.Tick`.

Where the source does not say what it means, the model follows the code:
- Snake's `grow` queues the current head cell, and `move_forward` keeps the
  tail only while it equals the first queued cell. Nothing ever removes a
  queued cell, so once the tail is kept it is kept on every later move
  (`SnakeRs.GrowsForever`). The model keeps that behaviour rather than
  consuming queued cells.
- `snake-rs/src/state.rs` does not compile against its own crate:
  - `tick` takes the new head from `move_forward`, which returns nothing.
    The model reads the new head as `segments[0]` after the move.
  - `new` calls `Board::new(width, height)`, but `board.rs` takes a single
    size. The model uses `width`.
  - `tick` asks the board for `food_coord`/`new_food`, which `board.rs`
    lacks. The model keeps the food cell as a field of the state.
- The flood fill of `reveal_coord` does not skip flagged cells. The model
  reveals them too.

## Model

| member | source | states |
|---|---|---|
| Coords.Add | arcade-util/src/coords.rs:13-15 | subtracting either operand from the sum gives back the other; its algebra is in AddCommutative, AddAssociative and AddIdentity |
| Coords.AddExample | arcade-util/tests/tests.rs:4-10 | (1, 2) + (3, 4) = (4, 6) |
| Coords.AddCommutative | arcade-util/src/coords.rs:13-15 | addition does not depend on operand order |
| Coords.AddAssociative | arcade-util/src/coords.rs:13-15 | addition does not depend on grouping |
| Coords.AddIdentity | arcade-util/src/coords.rs:13-15 | (0, 0) is neutral on both sides |
| Coords.EqualIffComponents | arcade-util/src/coords.rs:7-8 | derived equality holds iff both components are equal |
| Coords.GridMembership | minesweeper/src/minefield.rs:43-46 | a cell is produced by the width-by-height comprehension iff 0 <= x < w and 0 <= y < h |
| Coords.GridSize | minesweeper/src/minefield.rs:43-46 | the comprehension yields w·h distinct cells, or none when a side is not positive |
| Directions.Rotate | arcade-util/src/directions.rs:16-23 | a clockwise turn takes the offset (x, y) to (y, -x), a counter-clockwise turn to (-y, x) |
| Directions.AsCoord | arcade-util/src/directions.rs:25-32 | every offset is a unit step along one axis |
| Directions.RotateThenInverse | arcade-util/src/directions.rs:16-23 | a turn followed by the opposite turn restores the direction |
| Directions.FourClockwiseIsIdentity | arcade-util/src/directions.rs:16-23 | four clockwise turns restore the direction |
| Directions.RotateAlwaysTurns | arcade-util/src/directions.rs:16-23 | a quarter turn never keeps the direction |
| Directions.HalfTurnEitherWay | arcade-util/src/directions.rs:16-23 | two clockwise turns equal two counter-clockwise turns |
| Directions.AsCoordInjective | arcade-util/src/directions.rs:25-32 | distinct directions have distinct offsets |
| Directions.OppositeCancels | arcade-util/src/directions.rs:16-32 | the offsets of a direction and of its half turn add up to (0, 0) |
| Directions.UpClockwiseIsRight | arcade-util/src/directions.rs:18-30 | Up turned clockwise is Right, whose offset is (1, 0) |
| MineGrid.IsInside | minesweeper/src/minefield.rs:90-92 | `is_inside` holds iff the cell is in the board rectangle |
| MineGrid.BlockIsAdjacentOrCentre | minesweeper/src/minefield.rs:82-84 | the 3 × 3 block around c is c plus exactly the cells adjacent to c |
| MineGrid.KeepNeighbors | minesweeper/src/minefield.rs:85-86 | the filter keeps exactly the inside cells other than c, never lengthens the list and keeps it duplicate-free |
| MineGrid.Neighbors | minesweeper/src/minefield.rs:80-87 | the result holds exactly the inside cells adjacent to c, without duplicates, at most 8 of them, and not c |
| MineGrid.PartlyBombedStep | minesweeper/src/minefield.rs:70-75 | updating one more neighbour of the new mine extends the partial bomb update by that cell; an absent neighbour is left alone |
| MineGrid.PartlyBombedComplete | minesweeper/src/minefield.rs:66-77 | once every inside neighbour is updated, the tile map is the full bomb update |
| MineGrid.BombTiles | minesweeper/src/minefield.rs:66-77 | the loop of `set_bomb` (the same in minesweeper-rs/src/minefield.rs:60-71) leaves the map with Mine at the cell, each inside neighbour the map holds bumped (Empty to Number(1), Number(n) to Number(n+1), Mine kept) and every other cell unchanged |
| MineGrid.FloodStep | minesweeper/src/minefield.rs:107-111 | after the recursive reveal of one more neighbour of an Empty cell, every neighbour so far is revealed, the new cells are closed under flooding, and the old reveal order followed by the neighbour's order is still a flood order from the cell covering exactly the new cells |
| MineGrid.FloodOrderAppend | minesweeper/src/minefield.rs:107-111 | a flood order from an Empty cell, followed by a flood order from one of its neighbours, is a flood order from the cell |
| MineGrid.OrderedCellIn | minesweeper/src/minefield.rs:97-117 | every cell of a flood order from c that avoids the old revealed cells lies in any flood-closed set containing c |
| MineGrid.RevealAnswerUnique | minesweeper/src/minefield.rs:97-117 | the new cells of a reveal are determined: two answers that are each reached in flood order from c and closed under flooding are equal |
| MineGrid.StripReveal | minesweeper/src/minefield.rs:97-117 | on the 5 × 1 strip Empty, Number(1), Number(1), Empty, Empty, revealing (0, 0) reveals exactly (0, 0) and (1, 0) |
| MineGrid.OpenBoardReveal | minesweeper/src/minefield.rs:97-117 | on a 5 × 5 board without mines, revealing (0, 0) reveals all 25 cells |
| MineGrid.EmptyTiles | minesweeper/src/minefield.rs:43-46 | the initial map has exactly the grid cells as keys |
| MineGrid.EmptyTilesConsistent | minesweeper/src/minefield.rs:43-46 | a map of all Empty tiles is consistent with having no mines |
| MineGrid.AddOneMineAround | minesweeper/src/minefield.rs:71-73 | a new mine adds one to the mine count of each adjacent cell and changes no other count |
| MineGrid.BombKeepsConsistent | minesweeper/src/minefield.rs:66-77 | `set_bomb` on a mine-free cell turns a map consistent with a mine set into one consistent with that set plus the cell |
| MineGrid.ConsistentUnique | minesweeper/src/minefield.rs:41-63 | the mine set determines the tile map: two consistent maps for the same mines are equal |
| MineGrid.ConsistentMineCells | minesweeper/src/minefield.rs:140 | the cells holding Mine are exactly the mines |
| MineGrid.NumberBounds | minesweeper/src/minefield.rs:72-73 | every Number tile of a consistent map lies between 1 and 8 |
| MineGrid.SafeCellsRevealed | minesweeper/src/minefield.rs:138-140 | with no mine revealed, the revealed count equals cells minus mines iff exactly the mine-free cells are revealed |
| MineGrid.MineRevealedIff | minesweeper/src/minefield.rs:134 | some revealed tile is Mine iff a mine is revealed |
| MineGrid.GameOverTests | minesweeper/src/minefield.rs:132-145 | the two tests of `game_over`, on a consistent map, read as set conditions on mines and revealed cells |
| MineGrid.ChoiceSize | minesweeper/src/minefield.rs:56-57 | a sample of at most w·h cells from the grid has exactly the requested size |
| MineGrid.MineTilesAroundMatch | minesweeper-rs/src/minefield.rs:84-89 | on a consistent map, the neighbours holding Mine are exactly the neighbouring mines |
| Minesweeper.ToggledFlips | minesweeper/src/minefield.rs:120-128 | toggling flips the membership of c and of no other cell |
| Minesweeper.ToggledTwice | minesweeper/src/minefield.rs:120-128 | toggling twice restores the flag set |
| Minesweeper.Minefield.Build | minesweeper/src/minefield.rs:41-63 | the new field is consistent with the chosen cells as mines, holds one Mine tile per chosen cell, and has nothing revealed or flagged |
| Minesweeper.Minefield.PlaceMines | minesweeper/src/minefield.rs:56-60 | bombing each chosen cell keeps the map consistent and adds exactly the chosen cells to the mines |
| Minesweeper.Minefield.PlaceMine | minesweeper/src/minefield.rs:59 | one `set_bomb` adds that cell to the mines, keeps consistency, and leaves the full bomb update as the map |
| Minesweeper.Minefield.SetBomb | minesweeper/src/minefield.rs:66-77 | the map becomes the full bomb update at c |
| Minesweeper.Minefield.RevealCoord | minesweeper/src/minefield.rs:97-117 | the answer is exactly the newly revealed cells; an already revealed cell gives the empty set, a non-Empty cell gives only itself; otherwise the new cells are grid cells not revealed before, listed by a ghost order in which every cell after c is adjacent to an earlier Empty cell, and closed under flooding, which by RevealAnswerUnique fixes them |
| Minesweeper.Minefield.RevealNeighbors | minesweeper/src/minefield.rs:107-111 | after revealing every neighbour of the Empty cell c, all of them are revealed, the new cells are closed under flooding and are listed by a flood order from c |
| Minesweeper.Minefield.ToggleFlag | minesweeper/src/minefield.rs:120-128 | flips the flag on c and answers Flagged iff c is now flagged |
| Minesweeper.Minefield.GameOver | minesweeper/src/minefield.rs:132-145 | MineTriggered iff a mine is revealed; on a board with non-negative sides, GameWon iff exactly the mine-free cells are revealed |
| Minesweeper.Minefield.Configuration | minesweeper/src/minefield.rs:155-159 | the iterated cells are exactly the board rectangle |
| Minesweeper.Minefield.ResetMinefield | minesweeper/src/minefield.rs:162-185 | same size and mine count, nothing revealed or flagged, the new mines are the chosen cells, and the map is consistent |
| Minesweeper.OpenBoardWin | minesweeper/src/minefield.rs:41-145 | building a 5 × 5 field with no mines and revealing (0, 0) shows all 25 cells, and `game_over` then reports GameWon |
| MinesweeperRs.Minefield.Build | minesweeper-rs/src/minefield.rs:41-57 | the tile map covers the grid and is consistent with the chosen cells as mines, one Mine tile per chosen cell |
| MinesweeperRs.Minefield.Default | minesweeper-rs/src/minefield.rs:101-105 | a 20 × 20 field with exactly 40 Mine tiles |
| MinesweeperRs.Minefield.PlaceMines | minesweeper-rs/src/minefield.rs:50-54 | bombing each chosen cell keeps the map consistent and adds exactly the chosen cells to the mines |
| MinesweeperRs.Minefield.PlaceMine | minesweeper-rs/src/minefield.rs:53 | one `set_bomb` adds that cell to the mines, keeps consistency, and leaves the full bomb update as the map |
| MinesweeperRs.Minefield.SetBomb | minesweeper-rs/src/minefield.rs:60-71 | the full bomb update of the map at c |
| MinesweeperRs.Minefield.AdjacentMines | minesweeper-rs/src/minefield.rs:84-89 | a Number tile's value; 0 for Mine, Empty or a missing cell; on a consistent map, the number of adjacent Mine tiles for every non-mine cell |
| MinesweeperRs.Minefield.AdjacentMinesCounts | minesweeper-rs/src/minefield.rs:84-89 | on a consistent map, a non-mine cell's number is the count of its adjacent Mine tiles |
| MinesweeperRs.Minefield.Configuration | minesweeper-rs/src/minefield.rs:107-111 | the iterated cells are exactly the board rectangle |
| SnakeRs.Moved | snake-rs/src/snake.rs:23-32 | the new head is one step ahead of the old one; the body is the old segments, minus the tail unless the tail is the first queued cell |
| SnakeRs.MovedLength | snake-rs/src/snake.rs:23-32 | a move keeps the length, or adds one exactly when the tail is kept |
| SnakeRs.KeptTailStays | snake-rs/src/snake.rs:27-30 | a kept tail is still the first queued cell after the move |
| SnakeRs.GrowsForever | snake-rs/src/snake.rs:23-40 | once the tail is kept, n further moves lengthen the snake by n |
| SnakeRs.NoPendingKeepsLength | snake-rs/src/snake.rs:23-32 | with nothing queued, any number of moves keeps the length |
| SnakeRs.Snake.constructor | snake-rs/src/snake.rs:15-21 | one segment at the start cell, heading Up, nothing queued |
| SnakeRs.Snake.MoveForward | snake-rs/src/snake.rs:23-32 | the segments become `Moved` of the old segments, so the snake is never empty |
| SnakeRs.Snake.Rotate | snake-rs/src/snake.rs:34-36 | the heading becomes the rotation table's entry |
| SnakeRs.Snake.Grow | snake-rs/src/snake.rs:38-40 | appends the head cell to the queue |
| SnakeRs.Snake.CollidesWithSelf | snake-rs/src/snake.rs:42-44 | true iff the head cell occurs again at index 1 or later; never for one segment |
| SnakeRs.Snake.CollidesWith | snake-rs/src/snake.rs:47-51 | true iff some segment is on the cell; the head's cell always collides |
| SnakeRs.MoveForwardExample | snake-rs/tests/tests.rs:4-9 | a new snake at (0, 0), moved once, is [(0, 1)] |
| SnakeRs.RotateExample | snake-rs/tests/tests.rs:11-17 | a new snake at (0, 0), turned clockwise and moved, is [(1, 0)] |
| SnakeRsBoard.Board.GetSize | snake-rs/src/board.rs:31-33 | the board's size, so (s - 1, s - 1) is on the board when s > 0 and (s, 0) is off it |
| SnakeRsBoard.Board.CollidesWith | snake-rs/src/board.rs:36-43 | a cell collides iff it lies outside the size-by-size rectangle |
| SnakeRsBoard.New | snake-rs/src/board.rs:16-20 | `get_size` of the new board is the size it was given |
| SnakeRsBoard.InsideNeverCollides | snake-rs/src/board.rs:37-42 | no cell of [0, size)² collides |
| SnakeRsBoard.EmptyBoardAlwaysCollides | snake-rs/src/board.rs:37-42 | on a board of size <= 0 every cell collides |
| SnakeRsBoard.FreeCellCount | snake-rs/src/board.rs:37-42 | a board of size s has s² non-colliding cells |
| SnakeRsState.TruncDiv2 | snake-rs/src/state.rs:22-24 | i32 `checked_div(2)` rounds toward zero: remainder 0 or 1 for v >= 0, 0 or -1 for v < 0 |
| SnakeRsState.TruncDiv2Examples | snake-rs/src/state.rs:22-24 | 10 / 2 = 5, 7 / 2 = 3 and -7 / 2 = -3 |
| SnakeRsState.SnakeState.New | snake-rs/src/state.rs:20-27 | a one-segment snake at (width / 2, height / 2) heading Up, on a board of size `width` |
| SnakeRsState.SnakeState.Default | snake-rs/src/state.rs:13-17 | the snake starts at (5, 5) on a board of size 10 |
| SnakeRsState.SnakeState.Tick | snake-rs/src/state.rs:29-39 | the snake moves; GameOver iff the new head hits the body or leaves the board; Running leaves the head on the board; eating the food queues the head and takes the next food; otherwise the queue and the food are unchanged |
| SnakeFood.SpawnFood | snake/src/food.rs:42-46 | exactly one food item, at (10, 10) |
| SnakeFood.FeasibleColumn | snake/src/food.rs:56-58 | the free cells of column x from row y up, in increasing y |
| SnakeFood.FeasibleFrom | snake/src/food.rs:55-58 | the free cells of columns x and beyond, ordered by column and then row |
| SnakeFood.FeasibleFoodCoords | snake/src/food.rs:55-59 | exactly the board cells not on the snake, without duplicates |
| SnakeFood.FeasibleCount | snake/src/food.rs:55-59 | there are as many feasible cells as board cells minus snake cells |
| SnakeFood.FeasibleWhenSnakeOffBoard | snake/src/food.rs:55-59 | with the snake off the board, all size² cells are feasible |
| SnakeFood.FoodEventListener | snake/src/food.rs:48-72 | without a board nothing happens; with one, every event is consumed and min(events, feasible cells) distinct free board cells get food |
| PacmanUtil.FromChar | pacman/src/util.rs:23-32 | the alphabet characters map to Wall, GhostWall, GhostSpawn, Food and Path; the precondition excludes the panic |
| PacmanUtil.ToChar | pacman/src/util.rs:24-29 | each tile's character is in the alphabet |
| PacmanUtil.FromCharOnto | pacman/src/util.rs:13-31 | every tile type is produced by `from_char` |
| PacmanUtil.FromCharInjective | pacman/src/util.rs:24-29 | distinct characters give distinct tiles |
| PacmanUtil.ExactlyOneChar | pacman/src/util.rs:13-31 | each tile type is produced by exactly one character |
| PacmanMaze.Lines | pacman/src/maze.rs:41-45 | no line holds a newline, there are no more lines than characters, and the text is empty iff there are no lines |
| PacmanMaze.LinesOfJoin | pacman/src/maze.rs:44-45 | `lines` of newline-joined rows without newlines gives the rows back |
| PacmanMaze.FiveRowsOk | pacman/src/maze.rs:11-30 | each block of five layout rows has 20 characters per row, all from the alphabet |
| PacmanMaze.MazeRowsOk | pacman/src/maze.rs:10-30 | the layout has 20 rows of 20 alphabet characters |
| PacmanMaze.MazeLines | pacman/src/maze.rs:41-45 | `MAZE_STRING.lines()` yields the 20 layout rows |
| PacmanMaze.ParseMaze | pacman/src/maze.rs:44-55 | the keys are exactly (x, y) for each character x of line y, and each tile is that character's tile |
| PacmanMaze.Maze.Default | pacman/src/maze.rs:39-59 | width and height are 20, the map covers the rectangle with each tile from its layout character, the border is Wall and (1, 18) is Food |
| PacmanMaze.Maze.GetWidth | pacman/src/maze.rs:62-64 | every mapped cell's x lies below the width |
| PacmanMaze.Maze.GetHeight | pacman/src/maze.rs:66-68 | every mapped cell's y lies below the height |
| PacmanMaze.Maze.GetTile | pacman/src/maze.rs:70-72 | Some(tile) iff the cell is mapped; on a valid maze, None iff the cell is outside the rectangle |
| PacmanMaze.Maze.GetTileAt | pacman/src/maze.rs:74-76 | the same as `get_tile` at (x, y), so None exactly outside the rectangle |
| PacmanMaze.Maze.CollidesWith | pacman/src/maze.rs:88-93 | false iff the cell is mapped to Path or Food; unmapped cells collide |
| PacmanMaze.Maze.EatFoodAt | pacman/src/maze.rs:78-86 | true iff the tile was Food, which becomes Path with every other tile unchanged; afterwards the tile is not Food; no collision result changes |
| PacmanMaze.BorderIsWall | pacman/src/maze.rs:11-30 | rows 0 and 19 and columns 0 and 19 of the layout are all '#' |
| PacmanMaze.LayoutFacts | pacman/src/maze.rs:11-30 | a map that spells the layout is walled in, and (1, 18) holds Food |
| PacmanMaze.WalkableNeighboursInside | pacman/src/maze.rs:88-93 | in a walled-in map, a walkable cell lies in [1, 18]² and each of its four neighbours is on the map |
| PacmanMaze.EatTwice | pacman/src/maze.rs:78-86 | a second `eat_food_at` at the same cell answers false |
| PacmanActor.ChooseDir | pacman/src/pacman.rs:94-102 | with a direction key held, a held key's direction that outranks every held key (Left, Down, Up, Right); with none held, the old direction |
| PacmanActor.ChoiceIsUnique | pacman/src/pacman.rs:94-102 | any held direction that outranks all held keys is the one chosen |
| PacmanActor.LeftBeatsAll | pacman/src/pacman.rs:94-102 | all four keys held turns Left; Down beats Right; an unrelated key keeps the direction |
| PacmanActor.Pacman.Default | pacman/src/pacman.rs:22-29 | starts at (1, 18) facing Right |
| PacmanActor.Pacman.GetPos | pacman/src/pacman.rs:42-44 | the current position, the cell that `get_next_pos` steps one unit offset away from |
| PacmanActor.Pacman.GetNextPos | pacman/src/pacman.rs:46-48 | the next position is one of the four direct neighbours of the current one |
| PacmanActor.Pacman.StepOnce | pacman/src/pacman.rs:34-36 | moves to exactly the cell `get_next_pos` named, direction unchanged |
| PacmanActor.Pacman.SetDir | pacman/src/pacman.rs:38-40 | sets the direction and nothing else |
| PacmanActor.Pacman.MayStep | pacman/src/pacman.rs:77-78 | the gate opens iff the timer fired and the cell ahead is a mapped Path or Food tile |
| PacmanActor.Pacman.MovePacmanForward | pacman/src/pacman.rs:69-88 | steps to the next cell exactly when the gate opens, otherwise stays; a walkable position stays walkable |
| PacmanActor.Pacman.RotatePacman | pacman/src/pacman.rs:90-103 | the direction becomes the key-priority choice |
| PacmanActor.NewGame | pacman/src/pacman.rs:22-29 | the default maze is walled in and the default Pac-Man starts on a walkable cell facing Right |
| PacmanActor.Frame | pacman/src/plugin.rs:29-35 | the chained `rotate_pacman` and `move_pacman_forward` leave the key-priority direction and, with the maze untouched, keep Pac-Man on a walkable cell whose four neighbours are on the map |

## Left out

- Bevy plumbing: systems, `Commands`, `Query`, `Res`, sprites and the `spawn_*` systems. Also the minesweeper click and flag systems, `SpawnFood`/`SpawnPacmanSegment::write`, and `pacman_eating`, which only prints and despawns. None of them holds game logic.
- Randomness: `choose_multiple` and `thread_rng` become a caller-supplied sample that meets the sampler's promise. Its order is not modelled, since the result does not depend on it.
- Timers and tick cadence: `PacmanTimer` and `Time` are not modelled. Whether the timer fired is a `bool` parameter.
- Floating-point geometry: `physical_size`, `pos_to_physical`, `cell_pos_to_physical_pos` and `DiscreteBoard` are not modelled.
- `SnakeState::draw` only prints, so it is not modelled.
- `minesweeper-rs`'s `reset_minefield` is `todo!()` and so always panics, and its `reveal_coord` system only prints. Neither is modelled.
- The unfinished `test_self_collision` in `snake-rs/tests/tests.rs` stops at `todo!()` and is not modelled.
- minesweeper/src/util.rs is not part of this model. Its `Tile` is taken to be the one in `minesweeper-rs`. `Default for Minefield` (minesweeper/src/minefield.rs:149-153) is not modelled, because its constants live in that file.
- `reveal_coord` panics on a cell missing from the tile map (minesweeper/src/minefield.rs:113). The panic is the precondition `c in tiles` of `RevealCoord`, and a Valid field holds every grid cell, so only coordinates off the board are excluded.
- `HashSet::with_capacity((width * height) as usize)` in `build` and `reset_minefield` (minesweeper/src/minefield.rs:52, 174) panics with a capacity overflow when exactly one side is negative, since the negative product wraps to a huge `usize`. The panic is the precondition `0 <= width * height` of `Minesweeper.Minefield.Build` and `ResetMinefield`.
- A negative `num_mines` in either crate's `build` (minesweeper/src/minefield.rs:57, minesweeper-rs/src/minefield.rs:51) becomes a sample size near 2^64 after `as usize`, and the sampler's buffer for that many cells overflows and panics. The panic is the precondition `0 <= numMines` of `Minesweeper.Minefield.Build` and `MinesweeperRs.Minefield.Build`.
- i32 arithmetic is unbounded in the model. Overflow panics are not modelled: `width * height`, `n += 1`, `x - 1`, coordinate addition, and the `as i32` casts of line lengths. The `as usize` cast of `width * height` in `game_over` is modelled, with a negative value wrapping to 2^64 + v.
- `str::lines` is modelled for text without carriage returns, which the layout has none of.
- Iteration order of `HashMap` and `HashSet` is not modelled. Maps and sets are Dafny maps and sets, and every result above is order-independent.
- MinesweeperRs.Minefield.Default: assumes, like `Build`, that the sampler returns 40 distinct grid cells. It states only the board size and the mine count.
