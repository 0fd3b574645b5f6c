/**
 * The tile logic both minesweeper crates share: tiles, the in-bounds test, the
 * 8-neighbourhood, the effect of one `set_bomb` on the tile map, and the
 * counting invariant that a layout of mines determines every tile.
 */
module MineGrid {
  import opened Coords
  import opened Collections

  /** `Tile` of the minefield: a mine, a number of adjacent mines, or empty. */
  datatype Tile = Mine | Number(n: int) | Empty

  /** `is_inside`: the coordinate is a cell of the board rectangle. */
  function IsInside(w: int, h: int, c: Coord2D): (b: bool)
    ensures b <==> c in Grid(w, h)
  {
    GridMembership(w, h, c);
    c.x >= 0 && c.x < w && c.y >= 0 && c.y < h
  }

  /** Two distinct cells at Chebyshev distance 1. */
  predicate Adjacent(a: Coord2D, b: Coord2D)
  {
    a != b && -1 <= a.x - b.x <= 1 && -1 <= a.y - b.y <= 1
  }

  /** The 3x3 block around c in the order the source enumerates it: x outer, y inner. */
  function Block(c: Coord2D): seq<Coord2D>
  {
    [Coord2D(c.x - 1, c.y - 1), Coord2D(c.x - 1, c.y), Coord2D(c.x - 1, c.y + 1),
     Coord2D(c.x, c.y - 1), Coord2D(c.x, c.y), Coord2D(c.x, c.y + 1),
     Coord2D(c.x + 1, c.y - 1), Coord2D(c.x + 1, c.y), Coord2D(c.x + 1, c.y + 1)]
  }

  lemma BlockIsAdjacentOrCentre(c: Coord2D, n: Coord2D)
    ensures n in Block(c) && n != c <==> Adjacent(c, n)
  {
    if Adjacent(c, n) {
      var b := Block(c);
      if n.x == c.x - 1 {
        assert n == b[0] || n == b[1] || n == b[2];
      } else if n.x == c.x {
        assert n == b[3] || n == b[5];
      } else {
        assert n == b[6] || n == b[7] || n == b[8];
      }
    }
  }

  /** The filter of `neighbors`: keep the cells of s other than c that are inside. */
  function KeepNeighbors(w: int, h: int, c: Coord2D, s: seq<Coord2D>): (r: seq<Coord2D>)
    ensures forall n :: n in r <==> n in s && n != c && IsInside(w, h, n)
    ensures |r| <= |s| && (c in s ==> |r| < |s|)
    ensures Distinct(s) ==> Distinct(r)
  {
    if s == [] then []
    else
      var rest := KeepNeighbors(w, h, c, s[1..]);
      assert Distinct(s) ==> s[0] !in s[1..] by {
        if Distinct(s) {
          forall k | 0 <= k < |s| - 1 ensures s[1..][k] != s[0] {
            assert s[1..][k] == s[k + 1];
          }
        }
      }
      (if s[0] != c && IsInside(w, h, s[0]) then [s[0]] else []) + rest
  }

  /** `neighbors`: the in-bounds cells adjacent to c, each once, never c itself. */
  function Neighbors(w: int, h: int, c: Coord2D): (r: seq<Coord2D>)
    ensures forall n :: n in r <==> IsInside(w, h, n) && Adjacent(c, n)
    ensures Distinct(r) && |r| <= 8 && c !in r
  {
    forall n ensures n in Block(c) && n != c <==> Adjacent(c, n) {
      BlockIsAdjacentOrCentre(c, n);
    }
    KeepNeighbors(w, h, c, Block(c))
  }

  /** What a neighbour of a new mine becomes: `*n += 1`, `Empty` to `Number(1)`, a mine stays. */
  function Bump(t: Tile): Tile
  {
    match t
    case Number(k) => Number(k + 1)
    case Empty => Number(1)
    case Mine => Mine
  }

  /**
   * The tile map after `set_bomb(m)`: m becomes a mine (added if absent) and
   * every present, in-bounds cell adjacent to m is bumped.
   */
  function AfterBomb(w: int, h: int, tiles: map<Coord2D, Tile>, m: Coord2D): map<Coord2D, Tile>
  {
    map c | c in tiles.Keys + {m} ::
      if c == m then Mine
      else if IsInside(w, h, c) && Adjacent(m, c) then Bump(tiles[c])
      else tiles[c]
  }

  /** The tiles part-way through `set_bomb`: m is a mine and the cells of `done` are bumped. */
  function PartlyBombed(tiles: map<Coord2D, Tile>, m: Coord2D, done: set<Coord2D>): map<Coord2D, Tile>
  {
    map c | c in tiles.Keys + {m} ::
      if c == m then Mine
      else if c in done then Bump(tiles[c])
      else tiles[c]
  }

  /** Bumping one more cell n (if the map holds it) extends `done` by n. */
  lemma PartlyBombedStep(tiles: map<Coord2D, Tile>, m: Coord2D, done: set<Coord2D>, n: Coord2D)
    requires n != m && n !in done
    ensures var t := PartlyBombed(tiles, m, done);
      n in t ==> t[n] == tiles[n] && t[n := Bump(t[n])] == PartlyBombed(tiles, m, done + {n})
    ensures n !in PartlyBombed(tiles, m, done) ==> PartlyBombed(tiles, m, done) == PartlyBombed(tiles, m, done + {n})
  {
  }

  /** Once `done` is every in-bounds neighbour of m, the bomb is fully placed. */
  lemma PartlyBombedComplete(w: int, h: int, tiles: map<Coord2D, Tile>, m: Coord2D, done: set<Coord2D>)
    requires forall c :: c in done <==> IsInside(w, h, c) && Adjacent(m, c)
    ensures PartlyBombed(tiles, m, done) == AfterBomb(w, h, tiles, m)
  {
  }

  /**
   * The loop of `set_bomb`, which both crates' minefields run on their tile
   * map: m becomes a mine, then each in-bounds neighbour the map holds is
   * bumped in turn.
   */
  method BombTiles(w: int, h: int, t0: map<Coord2D, Tile>, m: Coord2D) returns (tiles: map<Coord2D, Tile>)
    ensures tiles == AfterBomb(w, h, t0, m)
  {
    tiles := t0[m := Mine];
    var ns := Neighbors(w, h, m);
    ghost var done: set<Coord2D> := {};
    assert tiles == PartlyBombed(t0, m, done);
    var i := 0;
    while i < |ns|
      invariant 0 <= i <= |ns|
      invariant forall j :: 0 <= j < i ==> ns[j] in done
      invariant forall j :: i <= j < |ns| ==> ns[j] !in done
      invariant forall d :: d in done ==> d in ns
      invariant tiles == PartlyBombed(t0, m, done)
    {
      var n := ns[i];
      PartlyBombedStep(t0, m, done, n);
      if n in tiles {
        tiles := tiles[n := Bump(tiles[n])];
      }
      done := done + {n};
      i := i + 1;
    }
    forall d ensures d in done <==> IsInside(w, h, d) && Adjacent(m, d) {
      if d in ns {
        var j :| 0 <= j < |ns| && ns[j] == d;
      }
    }
    PartlyBombedComplete(w, h, t0, m, done);
  }

  /** The mines of the layout that are adjacent to c. */
  function MinesAround(mines: set<Coord2D>, c: Coord2D): set<Coord2D>
  {
    set m | m in mines && Adjacent(c, m)
  }

  /** The tile a cell must hold when the mines are exactly `mines`. */
  function Expected(mines: set<Coord2D>, c: Coord2D): Tile
  {
    if c in mines then Mine
    else if |MinesAround(mines, c)| == 0 then Empty
    else Number(|MinesAround(mines, c)|)
  }

  /**
   * The counting invariant: the tile map covers exactly the grid, the mines
   * lie in the grid, and every tile is what the mines dictate.
   */
  ghost predicate Consistent(w: int, h: int, tiles: map<Coord2D, Tile>, mines: set<Coord2D>)
  {
    tiles.Keys == Grid(w, h) && mines <= Grid(w, h) &&
    forall c :: c in tiles ==> tiles[c] == Expected(mines, c)
  }

  /**
   * Flood fill is closed on S within R: every in-bounds cell adjacent to an
   * empty tile of S is in R.
   */
  ghost predicate FloodClosed(w: int, h: int, tiles: map<Coord2D, Tile>, s: set<Coord2D>, r: set<Coord2D>)
  {
    forall e, n :: e in s && e in tiles && tiles[e] == Empty && IsInside(w, h, n) && Adjacent(e, n) ==> n in r
  }

  /**
   * The cells of one reveal in the order it reaches them: the root first,
   * and every later cell next to an earlier Empty cell, so that every cell
   * traces back to the root through Empty tiles.
   */
  ghost predicate FloodOrder(tiles: map<Coord2D, Tile>, order: seq<Coord2D>, root: Coord2D)
  {
    |order| > 0 && order[0] == root &&
    forall k :: 0 < k < |order| ==> ReachedEarlier(tiles, order, k)
  }

  /** Cell k of the order is next to an Empty cell that comes before it. */
  ghost predicate ReachedEarlier(tiles: map<Coord2D, Tile>, order: seq<Coord2D>, k: int)
    requires 0 <= k < |order|
  {
    exists j :: 0 <= j < k && order[j] in tiles && tiles[order[j]] == Empty && Adjacent(order[j], order[k])
  }

  /**
   * What one `reveal_coord` from c answers when c was not yet revealed: new
   * cells of the board, reached from c in some flood order, and closed (every
   * in-bounds neighbour of a new Empty cell is revealed).
   */
  ghost predicate RevealAnswer(w: int, h: int, tiles: map<Coord2D, Tile>, before: set<Coord2D>,
                               c: Coord2D, r: set<Coord2D>, order: seq<Coord2D>)
  {
    r * before == {} && r <= Grid(w, h) && Elems(order) == r &&
    FloodOrder(tiles, order, c) && FloodClosed(w, h, tiles, r, before + r)
  }

  /**
   * One recursive reveal of the neighbour ns[i] of the empty root c, which
   * took the revealed set from `before` to `after` and answered `rn` in the
   * order `more`, keeps the facts of the root's loop.
   */
  lemma FloodStep(w: int, h: int, tiles: map<Coord2D, Tile>, start: set<Coord2D>, c: Coord2D,
                  before: set<Coord2D>, after: set<Coord2D>, ns: seq<Coord2D>, i: nat,
                  order: seq<Coord2D>, rn: set<Coord2D>, more: seq<Coord2D>)
    requires i < |ns| && c in tiles && tiles[c] == Empty && Adjacent(c, ns[i]) && c in before - start
    requires start <= before <= after && ns[i] in after && rn == after - before
    requires forall j :: 0 <= j < i ==> ns[j] in before
    requires FloodClosed(w, h, tiles, before - start - {c}, before)
    requires FloodOrder(tiles, order, c) && Elems(order) == before - start
    requires FloodClosed(w, h, tiles, rn, after)
    requires ns[i] in before ==> rn == {} && more == []
    requires ns[i] !in before ==> FloodOrder(tiles, more, ns[i]) && Elems(more) == rn
    ensures forall j :: 0 <= j < i + 1 ==> ns[j] in after
    ensures FloodClosed(w, h, tiles, after - start - {c}, after)
    ensures FloodOrder(tiles, order + more, c) && Elems(order + more) == after - start
  {
    FloodOrderAppend(tiles, order, more, c, ns[i]);
    ElemsAppend(order, more);
    assert after - start == (before - start) + rn;
  }

  /** Appending the order of a reveal from a neighbour n of the Empty root keeps a flood order. */
  lemma FloodOrderAppend(tiles: map<Coord2D, Tile>, order: seq<Coord2D>, more: seq<Coord2D>, c: Coord2D, n: Coord2D)
    requires FloodOrder(tiles, order, c) && c in tiles && tiles[c] == Empty && Adjacent(c, n)
    requires more == [] || FloodOrder(tiles, more, n)
    ensures FloodOrder(tiles, order + more, c)
  {
    var all := order + more;
    forall k | 0 < k < |all|
      ensures ReachedEarlier(tiles, all, k)
    {
      if k < |order| {
        assert ReachedEarlier(tiles, order, k);
        var j :| 0 <= j < k && order[j] in tiles && tiles[order[j]] == Empty && Adjacent(order[j], order[k]);
        assert all[j] == order[j] && all[k] == order[k];
      } else if k == |order| {
        assert all[0] == c && all[k] == more[0] == n;
      } else {
        var k' := k - |order|;
        assert ReachedEarlier(tiles, more, k');
        var j :| 0 <= j < k' && more[j] in tiles && tiles[more[j]] == Empty && Adjacent(more[j], more[k']);
        assert all[|order| + j] == more[j] && all[k] == more[k'];
      }
    }
  }

  /** Every cell of a flood order from c lies in any closed answer that holds c and avoids the earlier cells. */
  lemma {:induction false} OrderedCellIn(w: int, h: int, tiles: map<Coord2D, Tile>, before: set<Coord2D>, c: Coord2D,
                                         r1: set<Coord2D>, o1: seq<Coord2D>, r2: set<Coord2D>, k: nat)
    requires FloodOrder(tiles, o1, c) && Elems(o1) == r1 && r1 <= Grid(w, h) && r1 * before == {}
    requires c in r2 && FloodClosed(w, h, tiles, r2, before + r2)
    requires k < |o1|
    ensures o1[k] in r2
    decreases k
  {
    if k > 0 {
      assert ReachedEarlier(tiles, o1, k);
      var j :| 0 <= j < k && o1[j] in tiles && tiles[o1[j]] == Empty && Adjacent(o1[j], o1[k]);
      OrderedCellIn(w, h, tiles, before, c, r1, o1, r2, j);
      var n := o1[k];
      assert n in Elems(o1);
      assert n in r1 && n in Grid(w, h);
      GridMembership(w, h, n);
      assert IsInside(w, h, n);
      assert o1[j] in r2;
      assert n in before + r2;
      assert n !in before by {
        assert n !in r1 * before;
      }
    }
  }

  /** The answer of a reveal is determined: two sets meeting `RevealAnswer` for the same reveal are equal. */
  lemma RevealAnswerUnique(w: int, h: int, tiles: map<Coord2D, Tile>, before: set<Coord2D>, c: Coord2D,
                           r1: set<Coord2D>, o1: seq<Coord2D>, r2: set<Coord2D>, o2: seq<Coord2D>)
    requires RevealAnswer(w, h, tiles, before, c, r1, o1) && RevealAnswer(w, h, tiles, before, c, r2, o2)
    ensures r1 == r2
  {
    forall x | x in r1 ensures x in r2 {
      var k :| 0 <= k < |o1| && o1[k] == x;
      assert o2[0] in Elems(o2);
      OrderedCellIn(w, h, tiles, before, c, r1, o1, r2, k);
    }
    forall x | x in r2 ensures x in r1 {
      var k :| 0 <= k < |o2| && o2[k] == x;
      assert o1[0] in Elems(o1);
      OrderedCellIn(w, h, tiles, before, c, r2, o2, r1, k);
    }
  }

  /** A strip of five cells: Empty, Number(1), Number(1), Empty, Empty. */
  function StripTiles(): map<Coord2D, Tile>
  {
    map[Coord2D(0, 0) := Empty, Coord2D(1, 0) := Number(1), Coord2D(2, 0) := Number(1),
        Coord2D(3, 0) := Empty, Coord2D(4, 0) := Empty]
  }

  /** Revealing the left end of the strip reveals it and the first number, and stops there. */
  lemma StripReveal(r: set<Coord2D>, order: seq<Coord2D>)
    requires RevealAnswer(5, 1, StripTiles(), {}, Coord2D(0, 0), r, order)
    ensures r == {Coord2D(0, 0), Coord2D(1, 0)}
  {
    var t := StripTiles();
    var a := {Coord2D(0, 0), Coord2D(1, 0)};
    var o := [Coord2D(0, 0), Coord2D(1, 0)];
    assert Elems(o) == a;
    assert FloodOrder(t, o, Coord2D(0, 0)) by {
      assert o[0] in t && t[o[0]] == Empty && Adjacent(o[0], o[1]);
      assert ReachedEarlier(t, o, 1);
    }
    forall c | c in a ensures c in Grid(5, 1) {
      GridMembership(5, 1, c);
    }
    assert FloodClosed(5, 1, t, a, {} + a) by {
      forall e, n | e in a && e in t && t[e] == Empty && IsInside(5, 1, n) && Adjacent(e, n)
        ensures n in {} + a
      {
        assert e == Coord2D(0, 0);
        assert n == Coord2D(1, 0);
      }
    }
    assert RevealAnswer(5, 1, t, {}, Coord2D(0, 0), a, o);
    RevealAnswerUnique(5, 1, t, {}, Coord2D(0, 0), r, order, a, o);
  }

  /** The order in which a reveal can reach every cell of an open 5 x 5 board from (0, 0): row by row. */
  function OpenOrder(): (o: seq<Coord2D>)
    ensures |o| == 25 && forall k :: 0 <= k < 25 ==> o[k] == Coord2D(k % 5, k / 5)
  {
    seq(25, k => Coord2D(k % 5, k / 5))
  }

  /** On a 5 x 5 board without mines, revealing (0, 0) floods the whole board. */
  lemma OpenBoardReveal(r: set<Coord2D>, order: seq<Coord2D>)
    requires RevealAnswer(5, 5, EmptyTiles(5, 5), {}, Coord2D(0, 0), r, order)
    ensures r == Grid(5, 5) && |r| == 25
  {
    var t := EmptyTiles(5, 5);
    var o := OpenOrder();
    var g := Grid(5, 5);
    forall c | c in g ensures c in Elems(o) {
      GridMembership(5, 5, c);
      assert o[c.y * 5 + c.x] == c;
    }
    forall c | c in Elems(o) ensures c in g {
      var k :| 0 <= k < 25 && o[k] == c;
      GridMembership(5, 5, c);
    }
    assert FloodOrder(t, o, Coord2D(0, 0)) by {
      forall k | 0 < k < 25 ensures ReachedEarlier(t, o, k) {
        var j := if k % 5 != 0 then k - 1 else k - 5;
        GridMembership(5, 5, o[j]);
        assert 0 <= j < k && o[j] in t && t[o[j]] == Empty && Adjacent(o[j], o[k]);
      }
    }
    assert FloodClosed(5, 5, t, g, {} + g);
    assert RevealAnswer(5, 5, t, {}, Coord2D(0, 0), g, o);
    RevealAnswerUnique(5, 5, t, {}, Coord2D(0, 0), r, order, g, o);
    GridSize(5, 5);
  }

  /** The map `build` starts from: every grid cell empty. */
  function EmptyTiles(w: int, h: int): (t: map<Coord2D, Tile>)
    ensures t.Keys == Grid(w, h)
  {
    map c | c in Grid(w, h) :: Empty
  }

  lemma EmptyTilesConsistent(w: int, h: int)
    ensures Consistent(w, h, EmptyTiles(w, h), {})
  {
    forall c | c in EmptyTiles(w, h)
      ensures EmptyTiles(w, h)[c] == Expected({}, c)
    {
      assert MinesAround({}, c) == {};
    }
  }

  lemma AddOneMineAround(mines: set<Coord2D>, m: Coord2D, c: Coord2D)
    requires m !in mines
    ensures Adjacent(c, m) ==> |MinesAround(mines + {m}, c)| == |MinesAround(mines, c)| + 1
    ensures !Adjacent(c, m) ==> MinesAround(mines + {m}, c) == MinesAround(mines, c)
  {
    if Adjacent(c, m) {
      assert MinesAround(mines + {m}, c) == MinesAround(mines, c) + {m};
    }
  }

  /** One `set_bomb` on a fresh cell keeps the counting invariant, with one more mine. */
  lemma BombKeepsConsistent(w: int, h: int, tiles: map<Coord2D, Tile>, mines: set<Coord2D>, m: Coord2D)
    requires Consistent(w, h, tiles, mines)
    requires m in Grid(w, h) && m !in mines
    ensures Consistent(w, h, AfterBomb(w, h, tiles, m), mines + {m})
  {
    var t := AfterBomb(w, h, tiles, m);
    assert t.Keys == Grid(w, h);
    forall c | c in t
      ensures t[c] == Expected(mines + {m}, c)
    {
      AddOneMineAround(mines, m, c);
    }
  }

  /** The layout determines the tile map: two consistent maps for the same mines agree. */
  lemma ConsistentUnique(w: int, h: int, t1: map<Coord2D, Tile>, t2: map<Coord2D, Tile>, mines: set<Coord2D>)
    requires Consistent(w, h, t1, mines) && Consistent(w, h, t2, mines)
    ensures t1 == t2
  {
  }

  /** The cells holding a mine. */
  function MineCells(tiles: map<Coord2D, Tile>): set<Coord2D>
  {
    set c | c in tiles && tiles[c] == Mine
  }

  /** The number of Mine tiles, `tiles.values().filter(Mine).count()`. */
  function MineCount(tiles: map<Coord2D, Tile>): nat
  {
    |MineCells(tiles)|
  }

  lemma ConsistentMineCells(w: int, h: int, tiles: map<Coord2D, Tile>, mines: set<Coord2D>)
    requires Consistent(w, h, tiles, mines)
    ensures MineCells(tiles) == mines
  {
  }

  /** Every number tile counts between one and eight mines. */
  lemma NumberBounds(w: int, h: int, tiles: map<Coord2D, Tile>, mines: set<Coord2D>, c: Coord2D)
    requires Consistent(w, h, tiles, mines)
    requires c in tiles && tiles[c].Number?
    ensures 1 <= tiles[c].n <= 8
  {
    var ns := Neighbors(w, h, c);
    var around := MinesAround(mines, c);
    assert around <= Elems(ns) by {
      forall m | m in around ensures m in Elems(ns) {
      }
    }
    DistinctSize(ns);
    SubsetSize(around, Elems(ns));
    assert c !in mines && |around| > 0;
  }

  /**
   * With no mine revealed, the count of revealed cells reaches the number of
   * safe cells exactly when every safe cell is revealed.
   */
  lemma SafeCellsRevealed(w: int, h: int, revealed: set<Coord2D>, mines: set<Coord2D>)
    requires revealed <= Grid(w, h) && mines <= Grid(w, h)
    ensures w >= 0 && h >= 0 && revealed * mines == {} ==>
      (|revealed| == w * h - |mines| <==> revealed == Grid(w, h) - mines)
  {
    GridSize(w, h);
    var safe := Grid(w, h) - mines;
    assert Grid(w, h) == mines + safe && mines * safe == {};
    if revealed * mines == {} {
      assert revealed <= safe;
      if |revealed| == |safe| {
        SubsetSameSize(revealed, safe);
      }
    }
  }

  /** A revealed cell shows a mine exactly when a mine of the layout is revealed. */
  lemma MineRevealedIff(w: int, h: int, tiles: map<Coord2D, Tile>, mines: set<Coord2D>, revealed: set<Coord2D>)
    requires Consistent(w, h, tiles, mines) && revealed <= tiles.Keys
    ensures (exists c :: c in revealed && tiles[c] == Mine) <==> revealed * mines != {}
  {
    if revealed * mines != {} {
      var c :| c in revealed * mines;
      assert tiles[c] == Expected(mines, c);
    } else {
      forall c | c in revealed ensures tiles[c] != Mine {
        assert c !in revealed * mines;
        assert tiles[c] == Expected(mines, c);
      }
    }
  }

  /** The two tests of `game_over`, read through the counting invariant. */
  lemma GameOverTests(w: int, h: int, tiles: map<Coord2D, Tile>, mines: set<Coord2D>, revealed: set<Coord2D>)
    requires Consistent(w, h, tiles, mines) && revealed <= tiles.Keys
    ensures (exists c :: c in revealed && tiles[c] == Mine) <==> revealed * mines != {}
    ensures w >= 0 && h >= 0 && revealed * mines == {} ==>
      (|revealed| == UsizeOf(w * h) - MineCount(tiles) <==> revealed == Grid(w, h) - mines)
  {
    MineRevealedIff(w, h, tiles, mines, revealed);
    if w >= 0 && h >= 0 && revealed * mines == {} {
      ConsistentMineCells(w, h, tiles, mines);
      SafeCellsRevealed(w, h, revealed, mines);
      GridSize(w, h);
    }
  }

  /** `num_mines as usize`: a negative i32 wraps to a 64-bit unsigned value. */
  function UsizeOf(v: int): int
  {
    if v >= 0 then v else v + 0x1_0000_0000_0000_0000
  }

  /**
   * What `choose_multiple(rng, amount)` over the grid may return: `amount`
   * distinct grid cells, or all of them when there are fewer.
   */
  predicate ValidChoice(w: int, h: int, amount: int, chosen: seq<Coord2D>)
  {
    Distinct(chosen) && (forall c :: c in chosen ==> c in Grid(w, h)) &&
    |chosen| == Min(amount, |Grid(w, h)|)
  }

  /** A choice of `amount` cells, when the grid has room for all of them, has exactly `amount` cells. */
  lemma ChoiceSize(w: int, h: int, amount: int, chosen: seq<Coord2D>)
    requires ValidChoice(w, h, amount, chosen)
    requires w >= 0 && h >= 0 && 0 <= amount <= w * h
    ensures |chosen| == amount
  {
    GridSize(w, h);
  }

  /** The Mine tiles among the in-bounds neighbours of c, as read off the map. */
  function MineTilesAround(w: int, h: int, tiles: map<Coord2D, Tile>, c: Coord2D): set<Coord2D>
  {
    set n | n in tiles && IsInside(w, h, n) && Adjacent(c, n) && tiles[n] == Mine
  }

  /** Under the counting invariant the Mine tiles around c are the layout's mines around c. */
  lemma MineTilesAroundMatch(w: int, h: int, tiles: map<Coord2D, Tile>, mines: set<Coord2D>, c: Coord2D)
    requires Consistent(w, h, tiles, mines)
    ensures MineTilesAround(w, h, tiles, c) == MinesAround(mines, c)
  {
    forall n ensures n in MineTilesAround(w, h, tiles, c) <==> n in MinesAround(mines, c) {
      if n in tiles {
        assert tiles[n] == Expected(mines, n);
      }
    }
  }
}
