/**
 * The earlier minefield of the `minesweeper-rs` crate: only the tile map,
 * mine placement and the neighbour-count query, with no reveal or flags.
 */
module MinesweeperRs {
  import opened Coords
  import opened Collections
  import opened MineGrid

  const BoardSize: int := 20
  const NumMines: int := 40

  class Minefield {
    var width: int
    var height: int
    var tiles: map<Coord2D, Tile>
    /** The layout of mines that the tile map encodes. */
    ghost var mines: set<Coord2D>

    ghost predicate Valid()
      reads this
    {
      Consistent(width, height, tiles, mines)
    }

    /**
     * `build`: a grid of empty tiles, then `set_bomb` on each sampled cell of
     * `chosen`; a negative `num_mines` would make the sampler's buffer overflow.
     */
    constructor Build(width: int, height: int, numMines: int, chosen: seq<Coord2D>)
      requires 0 <= numMines
      requires ValidChoice(width, height, numMines, chosen)
      ensures Valid()
      ensures this.width == width && this.height == height
      ensures tiles.Keys == Grid(width, height)
      ensures mines == Elems(chosen) && MineCount(tiles) == |chosen|
    {
      this.width, this.height := width, height;
      tiles := EmptyTiles(width, height);
      mines := {};
      new;
      EmptyTilesConsistent(width, height);
      PlaceMines(chosen);
      ConsistentMineCells(width, height, tiles, mines);
      DistinctSize(chosen);
    }

    /** `Default`: a 20 x 20 board with 40 mines. */
    constructor Default(chosen: seq<Coord2D>)
      requires ValidChoice(BoardSize, BoardSize, NumMines, chosen)
      ensures Valid()
      ensures width == BoardSize && height == BoardSize
      ensures MineCount(tiles) == NumMines
    {
      ChoiceSize(BoardSize, BoardSize, NumMines, chosen);
      this.width, this.height := BoardSize, BoardSize;
      tiles := EmptyTiles(BoardSize, BoardSize);
      mines := {};
      new;
      EmptyTilesConsistent(width, height);
      PlaceMines(chosen);
      ConsistentMineCells(width, height, tiles, mines);
      DistinctSize(chosen);
    }

    /** The loop of `build` that calls `set_bomb` per chosen cell. */
    method PlaceMines(chosen: seq<Coord2D>)
      requires Valid()
      requires Distinct(chosen)
      requires forall c :: c in chosen ==> c in Grid(width, height) && c !in mines
      modifies this`tiles, this`mines
      ensures Valid() && mines == old(mines) + Elems(chosen)
    {
      var rest := chosen;
      while rest != []
        invariant Valid() && Distinct(rest)
        invariant forall c :: c in rest ==> c in Grid(width, height) && c !in mines
        invariant mines + Elems(rest) == old(mines) + Elems(chosen)
        decreases |rest|
      {
        DropFirst(rest);
        PlaceMine(rest[0]);
        rest := rest[1..];
      }
    }

    /** One step of that loop: `set_bomb` on a cell that is not yet a mine, keeping the layout in step. */
    method PlaceMine(m: Coord2D)
      requires Valid() && m in Grid(width, height) && m !in mines
      modifies this`tiles, this`mines
      ensures Valid() && mines == old(mines) + {m}
      ensures tiles == AfterBomb(width, height, old(tiles), m)
    {
      BombKeepsConsistent(width, height, tiles, mines, m);
      SetBomb(m);
      mines := mines + {m};
    }

    /** `set_bomb`: c becomes a mine and each in-bounds neighbour present in the map is bumped. */
    method SetBomb(c: Coord2D)
      modifies this`tiles
      ensures tiles == AfterBomb(width, height, old(tiles), c)
    {
      tiles := BombTiles(width, height, tiles, c);
    }

    /**
     * `adjacent_mines`: the count stored in a Number tile, and 0 for a mine,
     * an empty tile or a cell outside the map.
     */
    function AdjacentMines(c: Coord2D): (k: int)
      reads this
      ensures c in tiles && tiles[c].Number? ==> k == tiles[c].n
      ensures c !in tiles || tiles[c] == Mine || tiles[c] == Empty ==> k == 0
      ensures Valid() && c in tiles && tiles[c] != Mine ==>
        k == |MineTilesAround(width, height, tiles, c)|
    {
      AdjacentMinesCounts(c);
      if c in tiles && tiles[c].Number? then tiles[c].n else 0
    }

    /** For a tile that is not a mine, its stored count is the number of Mine tiles around it. */
    lemma AdjacentMinesCounts(c: Coord2D)
      ensures Valid() && c in tiles && tiles[c] != Mine ==>
        (if tiles[c].Number? then tiles[c].n else 0) == |MineTilesAround(width, height, tiles, c)|
    {
      if Valid() && c in tiles && tiles[c] != Mine {
        MineTilesAroundMatch(width, height, tiles, mines, c);
        assert tiles[c] == Expected(mines, c);
      }
    }

    /** `configuration`: the cells of the tile map, which are exactly the grid. */
    function Configuration(): (cells: set<Coord2D>)
      reads this
      requires Valid()
      ensures cells == Grid(width, height)
    {
      tiles.Keys
    }
  }
}
