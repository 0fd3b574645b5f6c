/** Food placement of the `snake` crate: the free cells of the board and one food per event. */
module SnakeFood {
  import opened Coords
  import opened Collections

  /** The payload-free event that asks for one more food. */
  datatype NewFoodEvent = NewFoodEvent

  /** The cell of the first food, placed by `spawn_food`. */
  const InitialFood: Coord2D := Coord2D(10, 10)

  /** `spawn_food`: the single food command issued at start-up. */
  function SpawnFood(): (spawned: seq<Coord2D>)
    ensures |spawned| == 1 && spawned[0] == InitialFood
  {
    [InitialFood]
  }

  /** The inner `(0..size).map(|y| ...)` of the feasible cells: column x from row y on, minus the snake. */
  function FeasibleColumn(x: int, y: int, size: int, snake: seq<Coord2D>): (r: seq<Coord2D>)
    decreases size - y
    ensures forall c :: c in r <==> c.x == x && y <= c.y < size && c !in snake
    ensures forall i, j :: 0 <= i < j < |r| ==> r[i].x == r[j].x && r[i].y < r[j].y
  {
    if y >= size then []
    else
      var rest := FeasibleColumn(x, y + 1, size, snake);
      if Coord2D(x, y) in snake then rest else [Coord2D(x, y)] + rest
  }

  /** The outer `(0..size).flat_map(...)`: columns x, x + 1, ..., size - 1 in turn. */
  function FeasibleFrom(x: int, size: int, snake: seq<Coord2D>): (r: seq<Coord2D>)
    decreases size - x
    ensures forall c :: c in r <==> x <= c.x < size && 0 <= c.y < size && c !in snake
    ensures forall i, j :: 0 <= i < j < |r| ==> r[i].x < r[j].x || (r[i].x == r[j].x && r[i].y < r[j].y)
  {
    if x >= size then []
    else
      var col := FeasibleColumn(x, 0, size, snake);
      var rest := FeasibleFrom(x + 1, size, snake);
      assert forall i, j :: 0 <= i < |col| && 0 <= j < |rest| ==> col[i].x < rest[j].x by {
        forall i, j | 0 <= i < |col| && 0 <= j < |rest| ensures col[i].x < rest[j].x {
          assert col[i] in col && rest[j] in rest;
        }
      }
      col + rest
  }

  /**
   * `feasible_food_coord`: the board cells not on the snake, column by
   * column, each once.
   */
  function FeasibleFoodCoords(size: int, snake: seq<Coord2D>): (r: seq<Coord2D>)
    ensures forall c :: c in r <==> c in Grid(size, size) && c !in snake
    ensures Distinct(r)
  {
    var r := FeasibleFrom(0, size, snake);
    assert forall c :: c in r <==> c in Grid(size, size) && c !in snake by {
      forall c ensures c in r <==> c in Grid(size, size) && c !in snake {
        GridMembership(size, size, c);
      }
    }
    r
  }

  /** There are as many feasible cells as board cells off the snake. */
  lemma FeasibleCount(size: int, snake: seq<Coord2D>)
    ensures |FeasibleFoodCoords(size, snake)| == |Grid(size, size) - Elems(snake)|
  {
    var r := FeasibleFoodCoords(size, snake);
    DistinctSize(r);
    assert Elems(r) == Grid(size, size) - Elems(snake);
  }

  /** With the snake off the board, every board cell is feasible. */
  lemma FeasibleWhenSnakeOffBoard(size: int, snake: seq<Coord2D>)
    requires size >= 0
    requires forall c :: c in snake ==> c !in Grid(size, size)
    ensures |FeasibleFoodCoords(size, snake)| == size * size
  {
    FeasibleCount(size, snake);
    assert Grid(size, size) - Elems(snake) == Grid(size, size);
    GridSize(size, size);
  }

  /**
   * What `choose_multiple(rng, amount)` over the feasible cells may return:
   * `amount` distinct feasible cells, or all of them when there are fewer.
   */
  predicate FoodSample(feasible: seq<Coord2D>, amount: nat, sample: seq<Coord2D>)
  {
    Distinct(sample) && (forall c :: c in sample ==> c in feasible) &&
    |sample| == Min(amount, |feasible|)
  }

  /**
   * `food_event_listener`: with a board of side `board.value`, consume every
   * event, counting them, and spawn one food per event on the sampled cells;
   * without a board do nothing.
   */
  method FoodEventListener(board: Option<int>, snake: seq<Coord2D>, events: seq<NewFoodEvent>,
                           sample: seq<Coord2D>)
    returns (spawned: seq<Coord2D>, consumed: nat)
    requires board.Some? ==> FoodSample(FeasibleFoodCoords(board.value, snake), |events|, sample)
    ensures board.None? ==> spawned == [] && consumed == 0
    ensures board.Some? ==> consumed == |events|
    ensures board.Some? ==> |spawned| == Min(consumed, |FeasibleFoodCoords(board.value, snake)|)
    ensures board.Some? ==> forall c :: c in spawned ==> c in Grid(board.value, board.value) && c !in snake
    ensures Distinct(spawned)
  {
    spawned, consumed := [], 0;
    if board.Some? {
      var feasible := FeasibleFoodCoords(board.value, snake);
      var numFood := 0;
      var i := 0;
      while i < |events|
        invariant 0 <= i <= |events| && numFood == i
      {
        numFood := numFood + 1;
        i := i + 1;
      }
      consumed := numFood;
      var k := 0;
      while k < |sample|
        invariant 0 <= k <= |sample| && spawned == sample[..k]
      {
        spawned := spawned + [sample[k]];
        k := k + 1;
      }
      assert sample[..k] == sample;
    }
  }
}
