/**
 * The snake of the `snake-rs` crate: a head-first list of segments, a
 * heading, and a list of cells at which the tail should be kept.
 */
module SnakeRs {
  import opened Coords
  import opened Directions

  /** Whether `move_forward` keeps the popped tail: it equals the first pending cell. */
  predicate KeepsTail(segs: seq<Coord2D>, toAdd: seq<Coord2D>)
    requires |segs| > 0
  {
    toAdd != [] && segs[|segs| - 1] == toAdd[0]
  }

  /**
   * The segments after one `move_forward`: insert the new head in front, pop
   * the last segment, and push it back when it is the first pending cell.
   */
  function Moved(segs: seq<Coord2D>, dir: Dir2D, toAdd: seq<Coord2D>): (r: seq<Coord2D>)
    requires |segs| > 0
    ensures |r| > 0 && r[0] == Add(segs[0], AsCoord(dir))
    ensures KeepsTail(segs, toAdd) ==> r[1..] == segs
    ensures !KeepsTail(segs, toAdd) ==> r[1..] == segs[..|segs| - 1]
  {
    var inserted := [Add(segs[0], AsCoord(dir))] + segs;
    var last := inserted[|inserted| - 1];
    var popped := inserted[..|inserted| - 1];
    if toAdd != [] && last == toAdd[0] then popped + [last] else popped
  }

  /** The segments after n moves with a fixed heading and pending list. */
  function MovedTimes(segs: seq<Coord2D>, dir: Dir2D, toAdd: seq<Coord2D>, n: nat): (r: seq<Coord2D>)
    requires |segs| > 0
    ensures |r| > 0
    decreases n
  {
    if n == 0 then segs else MovedTimes(Moved(segs, dir, toAdd), dir, toAdd, n - 1)
  }

  /** A move keeps the length, or adds one segment exactly when the tail is kept. */
  lemma MovedLength(segs: seq<Coord2D>, dir: Dir2D, toAdd: seq<Coord2D>)
    requires |segs| > 0
    ensures |Moved(segs, dir, toAdd)| == if KeepsTail(segs, toAdd) then |segs| + 1 else |segs|
  {
    var r := Moved(segs, dir, toAdd);
    assert r == [r[0]] + r[1..];
  }

  /** A kept tail stays the tail, so its segment is still the first pending cell. */
  lemma KeptTailStays(segs: seq<Coord2D>, dir: Dir2D, toAdd: seq<Coord2D>)
    requires |segs| > 0 && KeepsTail(segs, toAdd)
    ensures KeepsTail(Moved(segs, dir, toAdd), toAdd)
  {
    var r := Moved(segs, dir, toAdd);
    MovedLength(segs, dir, toAdd);
    assert r[|r| - 1] == r[1..][|segs| - 1];
  }

  /**
   * Since pending cells are never consumed, once the tail equals the first
   * pending cell the snake grows by one segment on every later move.
   */
  lemma {:induction false} GrowsForever(segs: seq<Coord2D>, dir: Dir2D, toAdd: seq<Coord2D>, n: nat)
    requires |segs| > 0 && KeepsTail(segs, toAdd)
    ensures |MovedTimes(segs, dir, toAdd, n)| == |segs| + n
    decreases n
  {
    if n > 0 {
      MovedLength(segs, dir, toAdd);
      KeptTailStays(segs, dir, toAdd);
      GrowsForever(Moved(segs, dir, toAdd), dir, toAdd, n - 1);
    }
  }

  /** With nothing pending the snake keeps its length however far it moves. */
  lemma {:induction false} NoPendingKeepsLength(segs: seq<Coord2D>, dir: Dir2D, n: nat)
    requires |segs| > 0
    ensures |MovedTimes(segs, dir, [], n)| == |segs|
    decreases n
  {
    if n > 0 {
      MovedLength(segs, dir, []);
      NoPendingKeepsLength(Moved(segs, dir, []), dir, n - 1);
    }
  }

  class Snake {
    var segments: seq<Coord2D>
    var direction: Dir2D
    var segmentsToAdd: seq<Coord2D>

    /** The source indexes `segments[0]` freely: the snake always has a head. */
    ghost predicate Valid()
      reads this
    {
      |segments| > 0
    }

    /** `new`: one segment at the start cell, heading Up, nothing pending. */
    constructor (startPos: Coord2D)
      ensures Valid()
      ensures segments == [startPos] && direction == Up && segmentsToAdd == []
    {
      segments := [startPos];
      direction := Up;
      segmentsToAdd := [];
    }

    /** `move_forward`, on the segment list held in place. */
    method MoveForward()
      requires Valid()
      modifies this`segments
      ensures Valid()
      ensures segments == Moved(old(segments), direction, segmentsToAdd)
    {
      var newHead := Add(segments[0], AsCoord(direction));
      segments := [newHead] + segments;
      var last := segments[|segments| - 1];
      segments := segments[..|segments| - 1];
      if segmentsToAdd != [] && last == segmentsToAdd[0] {
        segments := segments + [last];
      }
    }

    /** `rotate`: turn the heading by a quarter. */
    method Rotate(rot: Rot2D)
      modifies this`direction
      ensures direction == Directions.Rotate(old(direction), rot)
    {
      direction := Directions.Rotate(direction, rot);
    }

    /** `grow`: queue the current head cell. */
    method Grow()
      requires Valid()
      modifies this`segmentsToAdd
      ensures segmentsToAdd == old(segmentsToAdd) + [segments[0]]
    {
      segmentsToAdd := segmentsToAdd + [segments[0]];
    }

    /** `collides_with_self`: the head reappears further down the body. */
    function CollidesWithSelf(): (b: bool)
      reads this
      requires Valid()
      ensures b <==> exists i :: 1 <= i < |segments| && segments[i] == segments[0]
      ensures |segments| == 1 ==> !b
    {
      segments[0] in segments[1..]
    }

    /** `collides_with`: some segment lies on the cell; the head always does. */
    function CollidesWith(c: Coord2D): (b: bool)
      reads this
      ensures b <==> exists i :: 0 <= i < |segments| && segments[i] == c
      ensures |segments| > 0 && c == segments[0] ==> b
    {
      c in segments
    }
  }

  /** A fresh snake at the origin moves one cell Up. */
  method MoveForwardExample() returns (segs: seq<Coord2D>)
    ensures segs == [Coord2D(0, 1)]
  {
    var snake := new Snake(Origin);
    snake.MoveForward();
    segs := snake.segments;
  }

  /** A fresh snake turned Clockwise moves one cell Right. */
  method RotateExample() returns (segs: seq<Coord2D>)
    ensures segs == [Coord2D(1, 0)]
  {
    var snake := new Snake(Origin);
    snake.Rotate(Clockwise);
    snake.MoveForward();
    segs := snake.segments;
  }
}
