/** Four-way directions and quarter turns (arcade-util `Dir2D`, `Rot2D`). */
module Directions {
  import opened Coords

  datatype Dir2D = Up | Down | Left | Right

  datatype Rot2D = Clockwise | CounterClockwise

  /**
   * The fixed rotation table of `Dir2D::rotate`: a clockwise turn takes the
   * offset (x, y) to (y, -x), a counter-clockwise one to (-y, x).
   */
  function Rotate(d: Dir2D, rot: Rot2D): (r: Dir2D)
    ensures rot == Clockwise ==> AsCoord(r) == Coord2D(AsCoord(d).y, -AsCoord(d).x)
    ensures rot == CounterClockwise ==> AsCoord(r) == Coord2D(-AsCoord(d).y, AsCoord(d).x)
  {
    match (d, rot)
    case (Up, Clockwise) => Right
    case (Down, CounterClockwise) => Right
    case (Right, Clockwise) => Down
    case (Left, CounterClockwise) => Down
    case (Down, Clockwise) => Left
    case (Up, CounterClockwise) => Left
    case (Left, Clockwise) => Up
    case (Right, CounterClockwise) => Up
  }

  /** The unit offset of `Dir2D::as_coord`, one step along one axis; Up is +y. */
  function AsCoord(d: Dir2D): (c: Coord2D)
    ensures (c.x == 0 && (c.y == 1 || c.y == -1)) || (c.y == 0 && (c.x == 1 || c.x == -1))
  {
    match d
    case Up => Coord2D(0, 1)
    case Down => Coord2D(0, -1)
    case Left => Coord2D(-1, 0)
    case Right => Coord2D(1, 0)
  }

  function Inverse(rot: Rot2D): Rot2D
  {
    match rot
    case Clockwise => CounterClockwise
    case CounterClockwise => Clockwise
  }

  /** The direction reached by a half turn. */
  function Opposite(d: Dir2D): Dir2D
  {
    Rotate(Rotate(d, Clockwise), Clockwise)
  }

  lemma RotateThenInverse(d: Dir2D, rot: Rot2D)
    ensures Rotate(Rotate(d, rot), Inverse(rot)) == d
  {
  }

  lemma FourClockwiseIsIdentity(d: Dir2D)
    ensures Rotate(Rotate(Rotate(Rotate(d, Clockwise), Clockwise), Clockwise), Clockwise) == d
  {
  }

  lemma RotateAlwaysTurns(d: Dir2D, rot: Rot2D)
    ensures Rotate(d, rot) != d
  {
  }

  lemma HalfTurnEitherWay(d: Dir2D)
    ensures Rotate(Rotate(d, Clockwise), Clockwise)
         == Rotate(Rotate(d, CounterClockwise), CounterClockwise)
  {
  }

  /** `as_coord` is injective: distinct directions move to distinct offsets. */
  lemma AsCoordInjective(d: Dir2D, e: Dir2D)
    ensures AsCoord(d) == AsCoord(e) ==> d == e
  {
  }

  lemma OppositeCancels(d: Dir2D)
    ensures Add(AsCoord(d), AsCoord(Opposite(d))) == Origin
  {
    match d
    case Up => assert Opposite(Up) == Down;
    case Down => assert Opposite(Down) == Up;
    case Left => assert Opposite(Left) == Right;
    case Right => assert Opposite(Right) == Left;
  }

  lemma UpClockwiseIsRight()
    ensures Rotate(Up, Clockwise) == Right && Add(Origin, AsCoord(Right)) == Coord2D(1, 0)
  {
  }
}
