/** Integer grid coordinates shared by every game (arcade-util `Coord2D<i32>`). */
module Coords {

  /** A cell coordinate: the pair (x, y) of the source's tuple struct. */
  datatype Coord2D = Coord2D(x: int, y: int)

  /** Component-wise addition, the `Add` impl of `Coord2D`: taking either operand back off leaves the other. */
  function Add(a: Coord2D, b: Coord2D): (r: Coord2D)
    ensures Coord2D(r.x - b.x, r.y - b.y) == a
    ensures Coord2D(r.x - a.x, r.y - a.y) == b
  {
    Coord2D(a.x + b.x, a.y + b.y)
  }

  const Origin: Coord2D := Coord2D(0, 0)

  lemma AddExample()
    ensures Add(Coord2D(1, 2), Coord2D(3, 4)) == Coord2D(4, 6)
  {
  }

  lemma AddCommutative(a: Coord2D, b: Coord2D)
    ensures Add(a, b) == Add(b, a)
  {
  }

  lemma AddAssociative(a: Coord2D, b: Coord2D, c: Coord2D)
    ensures Add(Add(a, b), c) == Add(a, Add(b, c))
  {
  }

  lemma AddIdentity(a: Coord2D)
    ensures Add(Origin, a) == a && Add(a, Origin) == a
  {
  }

  /** The derived `Eq`: two coordinates are equal exactly when both components are. */
  lemma EqualIffComponents(a: Coord2D, b: Coord2D)
    ensures a == b <==> a.x == b.x && a.y == b.y
  {
  }

  /** The rectangle [0, w) x [0, h) of cells, as the source's `(0..w).flat_map(|x| (0..h)...)`. */
  function Grid(w: int, h: int): set<Coord2D>
  {
    set x: int, y: int | 0 <= x < w && 0 <= y < h :: Coord2D(x, y)
  }

  lemma GridMembership(w: int, h: int, c: Coord2D)
    ensures c in Grid(w, h) <==> 0 <= c.x < w && 0 <= c.y < h
  {
    if 0 <= c.x < w && 0 <= c.y < h {
      assert c == Coord2D(c.x, c.y);
    }
  }

  /** The column of cells with a fixed x and 0 <= y < h. */
  function Column(x: int, h: int): set<Coord2D>
  {
    set y: int | 0 <= y < h :: Coord2D(x, y)
  }

  lemma {:induction false} ColumnSize(x: int, h: nat)
    ensures |Column(x, h)| == h
  {
    if h > 0 {
      ColumnSize(x, h - 1);
      assert Column(x, h) == Column(x, h - 1) + {Coord2D(x, h - 1)};
    }
  }

  /** Peeling off the last column splits the grid into two disjoint parts. */
  lemma GridSplit(w: int, h: int)
    requires w > 0
    ensures Grid(w, h) == Grid(w - 1, h) + Column(w - 1, h)
    ensures Grid(w - 1, h) * Column(w - 1, h) == {}
  {
    forall c | c in Grid(w, h)
      ensures c in Grid(w - 1, h) + Column(w - 1, h)
    {
      GridMembership(w, h, c);
      GridMembership(w - 1, h, c);
    }
    forall c | c in Grid(w - 1, h) ensures c.x < w - 1 {
      GridMembership(w - 1, h, c);
    }
  }

  /** The grid holds exactly w * h cells when both sides are non-negative, and none otherwise. */
  lemma {:induction false} GridSize(w: int, h: int)
    ensures |Grid(w, h)| == if w <= 0 || h <= 0 then 0 else w * h
  {
    if w <= 0 || h <= 0 {
      if c :| c in Grid(w, h) {
        GridMembership(w, h, c);
        assert false;
      }
    } else {
      GridSize(w - 1, h);
      ColumnSize(w - 1, h);
      GridSplit(w, h);
      var n := |Grid(w - 1, h)|;
      assert |Grid(w, h)| == n + h;
      assert n == (w - 1) * h;
      assert (w - 1) * h + h == w * h;
    }
  }
}
