/**
 * The full minefield of the `minesweeper` crate: mine placement, flood-fill
 * reveal, flags and the win/loss rule, over a tile map and two cell sets that
 * the methods update in place.
 */
module Minesweeper {
  import opened Coords
  import opened Collections
  import opened MineGrid

  /** The answer of `toggle_flag`: whether the tile now carries a flag. */
  datatype Cover = Flagged | Unflagged

  datatype MinesweeperStatus = InProgress | MineTriggered | GameWon

  /** The set after flipping the membership of c. */
  function Toggled(s: set<Coord2D>, c: Coord2D): set<Coord2D>
  {
    if c in s then s - {c} else s + {c}
  }

  lemma ToggledFlips(s: set<Coord2D>, c: Coord2D)
    ensures c in Toggled(s, c) <==> c !in s
    ensures Toggled(s, c) - {c} == s - {c}
  {
  }

  lemma ToggledTwice(s: set<Coord2D>, c: Coord2D)
    ensures Toggled(Toggled(s, c), c) == s
  {
  }

  class Minefield {
    var width: int
    var height: int
    var tiles: map<Coord2D, Tile>
    var revealed: set<Coord2D>
    var flagged: set<Coord2D>
    /** The layout of mines that the tile map encodes. */
    ghost var mines: set<Coord2D>

    /** The tile map covers the grid and only tiles of the map are revealed. */
    ghost predicate Shaped()
      reads this
    {
      tiles.Keys == Grid(width, height) && revealed <= tiles.Keys
    }

    ghost predicate Valid()
      reads this
    {
      Shaped() && Consistent(width, height, tiles, mines)
    }

    /**
     * `build`: a grid of empty tiles, then `set_bomb` on each cell `chosen`
     * by the random sampler. A negative `width * height` would make the
     * capacity request of the revealed set overflow and panic, and a
     * negative `num_mines` turns, as `usize`, into a sample size whose
     * buffer the sampler cannot allocate.
     */
    constructor Build(width: int, height: int, numMines: int, chosen: seq<Coord2D>)
      requires 0 <= width * height && 0 <= numMines
      requires ValidChoice(width, height, numMines, chosen)
      ensures Valid()
      ensures this.width == width && this.height == height
      ensures mines == Elems(chosen) && MineCount(tiles) == |chosen|
      ensures revealed == {} && flagged == {}
    {
      this.width, this.height := width, height;
      tiles := EmptyTiles(width, height);
      revealed, flagged := {}, {};
      mines := {};
      new;
      EmptyTilesConsistent(width, height);
      PlaceMines(chosen);
      ConsistentMineCells(width, height, tiles, mines);
      DistinctSize(chosen);
    }

    /** The loop of `build` and `reset_minefield` that calls `set_bomb` per chosen cell. */
    method PlaceMines(chosen: seq<Coord2D>)
      requires Valid()
      requires Distinct(chosen)
      requires forall c :: c in chosen ==> c in Grid(width, height) && c !in mines
      modifies this`tiles, this`mines
      ensures Valid() && mines == old(mines) + Elems(chosen)
    {
      var rest := chosen;
      while rest != []
        invariant Valid() && Distinct(rest)
        invariant forall c :: c in rest ==> c in Grid(width, height) && c !in mines
        invariant mines + Elems(rest) == old(mines) + Elems(chosen)
        decreases |rest|
      {
        DropFirst(rest);
        PlaceMine(rest[0]);
        rest := rest[1..];
      }
    }

    /** One step of that loop: `set_bomb` on a cell that is not yet a mine, keeping the layout in step. */
    method PlaceMine(m: Coord2D)
      requires Valid() && m in Grid(width, height) && m !in mines
      modifies this`tiles, this`mines
      ensures Valid() && mines == old(mines) + {m}
      ensures tiles == AfterBomb(width, height, old(tiles), m)
    {
      BombKeepsConsistent(width, height, tiles, mines, m);
      SetBomb(m);
      mines := mines + {m};
    }

    /** `set_bomb`: c becomes a mine and each in-bounds neighbour present in the map is bumped. */
    method SetBomb(c: Coord2D)
      modifies this`tiles
      ensures tiles == AfterBomb(width, height, old(tiles), c)
    {
      tiles := BombTiles(width, height, tiles, c);
    }

    /**
     * `reveal_coord`: reveal c and, when it is empty, every neighbour in turn,
     * recursively; answer the cells this call revealed.
     */
    method RevealCoord(c: Coord2D) returns (r: set<Coord2D>, ghost order: seq<Coord2D>)
      requires Shaped() && c in tiles
      modifies this`revealed
      decreases |tiles.Keys - revealed|, 1
      ensures Shaped()
      ensures old(revealed) <= revealed && r == revealed - old(revealed)
      ensures c in revealed
      ensures c in old(revealed) ==> r == {} && order == []
      ensures c !in old(revealed) ==> c in r
      ensures c !in old(revealed) && tiles[c] != Empty ==> r == {c}
      ensures FloodClosed(width, height, tiles, r, revealed)
      ensures c !in old(revealed) ==> RevealAnswer(width, height, tiles, old(revealed), c, r, order)
    {
      if c in revealed {
        return {}, [];
      }
      var oldRevealed := revealed;
      revealed := revealed + {c};
      order := [c];
      if tiles[c] == Empty {
        order := RevealNeighbors(c, Neighbors(width, height, c), oldRevealed);
      }
      r := revealed - oldRevealed;
      assert r * (oldRevealed + {c}) == {c};
      assert oldRevealed + r == revealed;
    }

    /**
     * The `for_each` of `reveal_coord` over the neighbours ns of the Empty
     * cell c, just revealed on top of `start`: reveal each in turn.
     */
    method RevealNeighbors(c: Coord2D, ns: seq<Coord2D>, ghost start: set<Coord2D>) returns (ghost order: seq<Coord2D>)
      requires Shaped() && c in tiles && tiles[c] == Empty && c !in start && revealed == start + {c}
      requires ns == Neighbors(width, height, c)
      modifies this`revealed
      decreases |tiles.Keys - start|, 0
      ensures Shaped() && start + {c} <= revealed
      ensures forall j :: 0 <= j < |ns| ==> ns[j] in revealed
      ensures FloodClosed(width, height, tiles, revealed - start - {c}, revealed)
      ensures FloodOrder(tiles, order, c) && Elems(order) == revealed - start
    {
      order := [c];
      var i := 0;
      while i < |ns|
        invariant 0 <= i <= |ns|
        invariant revealed <= tiles.Keys
        invariant start + {c} <= revealed
        invariant forall j :: 0 <= j < i ==> ns[j] in revealed
        invariant FloodClosed(width, height, tiles, revealed - start - {c}, revealed)
        invariant FloodOrder(tiles, order, c) && Elems(order) == revealed - start
      {
        var n := ns[i];
        assert n in ns && IsInside(width, height, n);
        assert c in tiles.Keys - start && c !in tiles.Keys - revealed;
        ProperSubsetSize(tiles.Keys - revealed, tiles.Keys - start);
        ghost var before := revealed;
        var rn;
        ghost var more;
        rn, more := RevealCoord(n);
        FloodStep(width, height, tiles, start, c, before, revealed, ns, i, order, rn, more);
        order := order + more;
        i := i + 1;
      }
    }

    /** `toggle_flag`: flip the flag on c and answer whether it is now set. */
    method ToggleFlag(c: Coord2D) returns (cover: Cover)
      modifies this`flagged
      ensures flagged == Toggled(old(flagged), c)
      ensures cover == Flagged <==> c in flagged
    {
      if c in flagged {
        flagged := flagged - {c};
        cover := Unflagged;
      } else {
        flagged := flagged + {c};
        cover := Flagged;
      }
    }

    /**
     * `game_over`: a revealed mine loses; otherwise the game is won when the
     * number of revealed cells equals the board size minus the mine count.
     */
    function GameOver(): (s: MinesweeperStatus)
      reads this
      requires Valid()
      ensures s == MineTriggered <==> revealed * mines != {}
      ensures width >= 0 && height >= 0 ==> (s == GameWon <==> revealed == Grid(width, height) - mines)
    {
      GameOverTests(width, height, tiles, mines, revealed);
      if exists c :: c in revealed && tiles[c] == Mine then MineTriggered
      else if |revealed| == UsizeOf(width * height) - MineCount(tiles) then GameWon
      else InProgress
    }

    /** `configuration`: the cells of the tile map, which are exactly the grid. */
    function Configuration(): (cells: set<Coord2D>)
      reads this
      requires Valid()
      ensures cells == Grid(width, height)
    {
      tiles.Keys
    }

    /**
     * `reset_minefield`: keep the size and the mine count, clear the revealed
     * and flagged cells, and lay the mines anew on the cells `chosen`; the
     * same capacity request as `build` rules out a negative `width * height`.
     */
    method ResetMinefield(chosen: seq<Coord2D>)
      requires Valid() && 0 <= width * height
      requires ValidChoice(width, height, MineCount(tiles), chosen)
      modifies this
      ensures Valid()
      ensures width == old(width) && height == old(height)
      ensures revealed == {} && flagged == {} && mines == Elems(chosen)
      ensures MineCount(tiles) == old(MineCount(tiles))
    {
      ConsistentMineCells(width, height, tiles, mines);
      SubsetSize(mines, Grid(width, height));
      var numMines := MineCount(tiles);
      tiles := EmptyTiles(width, height);
      revealed, flagged := {}, {};
      mines := {};
      EmptyTilesConsistent(width, height);
      PlaceMines(chosen);
      ConsistentMineCells(width, height, tiles, mines);
      DistinctSize(chosen);
    }
  }

  /**
   * A game on an open 5 x 5 board: `build` with no mines, a single reveal of
   * (0, 0), which floods every cell, and `game_over`, which reports a win.
   */
  method OpenBoardWin() returns (shown: set<Coord2D>, status: MinesweeperStatus)
    ensures shown == Grid(5, 5) && |shown| == 25
    ensures status == GameWon
  {
    var m := new Minefield.Build(5, 5, 0, []);
    EmptyTilesConsistent(5, 5);
    ConsistentUnique(5, 5, m.tiles, EmptyTiles(5, 5), {});
    ghost var order;
    shown, order := m.RevealCoord(Coord2D(0, 0));
    OpenBoardReveal(shown, order);
    status := m.GameOver();
  }
}
