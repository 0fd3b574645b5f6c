/** One game of `snake-rs`: a snake, its board and the current food cell, advanced tick by tick. */
module SnakeRsState {
  import opened Coords
  import opened Directions
  import opened SnakeRs
  import opened SnakeRsBoard

  datatype GameStatus = Running | GameOver

  /** `checked_div(2)` on an i32: division rounding toward zero, never None for the divisor 2. */
  function TruncDiv2(v: int): (q: int)
    ensures v >= 0 ==> 0 <= v - 2 * q <= 1
    ensures v < 0 ==> -1 <= v - 2 * q <= 0
  {
    if v >= 0 then v / 2 else -((-v) / 2)
  }

  /** Rounding toward zero differs from flooring on odd negative numbers. */
  lemma TruncDiv2Examples()
    ensures TruncDiv2(10) == 5 && TruncDiv2(7) == 3 && TruncDiv2(-7) == -3
  {
  }

  class SnakeState {
    const snake: Snake
    const board: Board
    /** The food cell, which the board of the source is asked for; it is not shown there. */
    var food: Coord2D

    ghost predicate Valid()
      reads this, snake
    {
      snake.Valid()
    }

    /** `new`: a one-segment snake at the centre cell, heading Up, on a board of side `width`. */
    constructor New(width: int, height: int, food: Coord2D)
      ensures Valid() && fresh(snake)
      ensures snake.segments == [Coord2D(TruncDiv2(width), TruncDiv2(height))]
      ensures snake.direction == Up && snake.segmentsToAdd == []
      ensures board.GetSize() == width
      ensures this.food == food
    {
      snake := new Snake(Coord2D(TruncDiv2(width), TruncDiv2(height)));
      board := SnakeRsBoard.New(width);
      this.food := food;
    }

    /** `default`: `new(10, 10)`, so the snake starts at (5, 5). */
    constructor Default(food: Coord2D)
      ensures Valid() && fresh(snake)
      ensures snake.segments == [Coord2D(5, 5)]
      ensures snake.direction == Up && snake.segmentsToAdd == []
      ensures board.GetSize() == 10
      ensures this.food == food
    {
      snake := new Snake(Coord2D(TruncDiv2(10), TruncDiv2(10)));
      board := SnakeRsBoard.New(10);
      this.food := food;
    }

    /**
     * `tick`: move the snake; the game is over if the new head hits the body
     * or leaves the board; otherwise, on the food cell, grow and take the
     * next food cell `newFood`.
     */
    method Tick(newFood: Coord2D) returns (status: GameStatus)
      requires Valid()
      modifies snake, this`food
      ensures Valid()
      ensures snake.segments == Moved(old(snake.segments), old(snake.direction), old(snake.segmentsToAdd))
      ensures snake.direction == old(snake.direction)
      ensures status == GameOver <==> snake.CollidesWithSelf() || board.CollidesWith(snake.segments[0])
      ensures status == Running ==> snake.segments[0] in Grid(board.size, board.size)
      ensures status == GameOver ==> snake.segmentsToAdd == old(snake.segmentsToAdd) && food == old(food)
      ensures status == Running && snake.segments[0] == old(food) ==>
        snake.segmentsToAdd == old(snake.segmentsToAdd) + [snake.segments[0]] && food == newFood
      ensures status == Running && snake.segments[0] != old(food) ==>
        snake.segmentsToAdd == old(snake.segmentsToAdd) && food == old(food)
    {
      snake.MoveForward();
      var newHead := snake.segments[0];
      if snake.CollidesWithSelf() || board.CollidesWith(newHead) {
        return GameOver;
      } else if newHead == food {
        snake.Grow();
        food := newFood;
      }
      status := Running;
    }
  }
}
