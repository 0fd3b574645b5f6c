/** The square play field of the `snake-rs` crate, as far as collisions go. */
module SnakeRsBoard {
  import opened Coords

  /** A board of `size` cells a side; its pixel size, a float, is not modelled. */
  datatype Board = Board(size: int)
  {
    /** `get_size`: the side length, so (s - 1, s - 1) is the last cell on the board and column s is off it. */
    function GetSize(): (s: int)
      ensures s == size
      ensures s > 0 ==> !CollidesWith(Coord2D(s - 1, s - 1))
      ensures CollidesWith(Coord2D(s, 0))
    {
      size
    }

    /** `collides_with`: the cell lies off the board. */
    function CollidesWith(c: Coord2D): (b: bool)
      ensures b <==> c !in Grid(size, size)
      ensures b <==> c.x < 0 || c.x >= size || c.y < 0 || c.y >= size
    {
      GridMembership(size, size, c);
      c.x < 0 || c.x >= size || c.y < 0 || c.y >= size
    }
  }

  /** `Board::new`. */
  function New(size: int): (b: Board)
    ensures b.GetSize() == size
  {
    Board(size)
  }

  /** Every cell of [0, size) x [0, size) is free of the walls. */
  lemma InsideNeverCollides(b: Board, c: Coord2D)
    requires 0 <= c.x < b.size && 0 <= c.y < b.size
    ensures !b.CollidesWith(c)
  {
  }

  /** A board with no cells makes every cell a collision. */
  lemma EmptyBoardAlwaysCollides(b: Board, c: Coord2D)
    requires b.size <= 0
    ensures b.CollidesWith(c)
  {
  }

  /** The board holds size * size free cells. */
  lemma FreeCellCount(b: Board)
    requires b.size >= 0
    ensures |set c | c in Grid(b.size, b.size) && !b.CollidesWith(c)| == b.size * b.size
  {
    assert (set c | c in Grid(b.size, b.size) && !b.CollidesWith(c)) == Grid(b.size, b.size);
    GridSize(b.size, b.size);
  }
}
