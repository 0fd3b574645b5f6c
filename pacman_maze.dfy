/**
 * The maze of the `pacman` crate: a compiled-in text layout parsed into a
 * map from cells to tiles, whose Food tiles are eaten in place.
 */
module PacmanMaze {
  import opened Coords
  import opened Collections
  import opened PacmanUtil
  import opened Directions

  /** The lines of `MAZE_STRING`, top line first; line y holds the cells (x, y). */
  const MazeRows: seq<string> := [
    "####################",
    "#......#....#......#",
    "#.####.#.##.#.####.#",
    "#.#....#....#....#.#",
    "#.#.##.#.##.#.##.#.#",
    "#.#.##...##......#.#",
    "#....##########....#",
    "####.#........#.#.##",
    "#....#.??????.#.#..#",
    "#.####.?XXXX?...##.#",
    "#.##...?XXXX?.#.#..#",
    "#.##.#.??????.#.#.##",
    "#....#........#.#..#",
    "#.#############.##.#",
    "#........#.........#",
    "###.####.#.#####.###",
    "#......#.#.#.......#",
    "#.##.#.#.#.#.#.###.#",
    "#....#.......#.....#",
    "####################"
  ]

  /** Lines joined by newlines, with none after the last. */
  function Join(rows: seq<string>): string
  {
    if |rows| == 0 then ""
    else if |rows| == 1 then rows[0]
    else rows[0] + "\n" + Join(rows[1..])
  }

  /** `MAZE_STRING`: the layout as one string. */
  const MazeString: string := Join(MazeRows)

  /** The first newline of s at or after i, or |s| when there is none. */
  function NextNewline(s: string, i: nat): (k: nat)
    requires i <= |s|
    decreases |s| - i
    ensures i <= k <= |s| && (k < |s| ==> s[k] == '\n')
    ensures forall j :: i <= j < k ==> s[j] != '\n'
  {
    if i == |s| || s[i] == '\n' then i else NextNewline(s, i + 1)
  }

  /** `str::lines` for text without carriage returns: split at each newline, no empty last line. */
  function Lines(s: string): (ls: seq<string>)
    decreases |s|
    ensures s == "" <==> ls == []
    ensures |ls| <= |s|
    ensures forall y, x :: 0 <= y < |ls| && 0 <= x < |ls[y]| ==> ls[y][x] != '\n'
  {
    if s == "" then []
    else
      var k := NextNewline(s, 0);
      if k == |s| then [s] else [s[..k]] + Lines(s[k + 1..])
  }

  /** The newline-free rows, the last one non-empty, that `Join` glued together. */
  predicate PlainRows(rows: seq<string>)
  {
    |rows| > 0 && rows[|rows| - 1] != "" &&
    forall y, x :: 0 <= y < |rows| && 0 <= x < |rows[y]| ==> rows[y][x] != '\n'
  }

  /** Splitting the joined rows gives the rows back. */
  lemma {:induction false} LinesOfJoin(rows: seq<string>)
    requires PlainRows(rows)
    ensures Lines(Join(rows)) == rows
    decreases |rows|
  {
    var s := Join(rows);
    var r := rows[0];
    if |rows| == 1 {
      assert NextNewline(s, 0) == |s| by {
        forall j | 0 <= j < |s| ensures s[j] != '\n' {
          assert s[j] == rows[0][j];
        }
      }
    } else {
      var rest := rows[1..];
      assert s == r + "\n" + Join(rest);
      assert s != "";
      assert NextNewline(s, 0) == |r| by {
        var k := NextNewline(s, 0);
        assert s[|r|] == '\n';
        forall j | 0 <= j < |r| ensures s[j] != '\n' {
          assert s[j] == rows[0][j];
        }
      }
      assert s[..|r|] == r;
      assert s[|r| + 1..] == Join(rest);
      assert PlainRows(rest) by {
        forall y, x | 0 <= y < |rest| && 0 <= x < |rest[y]| ensures rest[y][x] != '\n' {
          assert rest[y] == rows[y + 1];
        }
      }
      LinesOfJoin(rest);
    }
  }

  /** Every row of the shipped layout has 20 characters of the tile alphabet. */
  predicate RowOk(row: string)
  {
    |row| == 20 && forall x :: 0 <= x < 20 ==> row[x] in Alphabet
  }

  /** Rows y0 .. y0 + 4 of the shipped layout are well formed (split to keep each proof small). */
  lemma FiveRowsOk(y0: int)
    requires y0 == 0 || y0 == 5 || y0 == 10 || y0 == 15
    ensures forall y :: y0 <= y < y0 + 5 ==> RowOk(MazeRows[y])
  {
    if y0 == 0 {
      assert RowOk(MazeRows[0]) && RowOk(MazeRows[1]) && RowOk(MazeRows[2]) && RowOk(MazeRows[3]) && RowOk(MazeRows[4]);
    } else if y0 == 5 {
      assert RowOk(MazeRows[5]) && RowOk(MazeRows[6]) && RowOk(MazeRows[7]) && RowOk(MazeRows[8]) && RowOk(MazeRows[9]);
    } else if y0 == 10 {
      assert RowOk(MazeRows[10]) && RowOk(MazeRows[11]) && RowOk(MazeRows[12]) && RowOk(MazeRows[13]) && RowOk(MazeRows[14]);
    } else {
      assert RowOk(MazeRows[15]) && RowOk(MazeRows[16]) && RowOk(MazeRows[17]) && RowOk(MazeRows[18]) && RowOk(MazeRows[19]);
    }
  }

  /** The shipped layout has 20 rows of 20 characters of the tile alphabet, so parsing never panics. */
  lemma MazeRowsOk()
    ensures |MazeRows| == 20
    ensures forall y :: 0 <= y < 20 ==> RowOk(MazeRows[y])
  {
    FiveRowsOk(0);
    FiveRowsOk(5);
    FiveRowsOk(10);
    FiveRowsOk(15);
  }

  /** `MAZE_STRING.lines()` gives back the 20 layout rows. */
  lemma MazeLines()
    ensures Lines(MazeString) == MazeRows
  {
    MazeRowsOk();
    assert PlainRows(MazeRows) by {
      forall y, x | 0 <= y < |MazeRows| && 0 <= x < |MazeRows[y]| ensures MazeRows[y][x] != '\n' {
        assert RowOk(MazeRows[y]);
      }
    }
    LinesOfJoin(MazeRows);
  }

  /** The cells (x, y) with y a line number and x a character position on line y. */
  function Cells(lines: seq<string>): set<Coord2D>
  {
    set y, x | 0 <= y < |lines| && 0 <= x < |lines[y]| :: Coord2D(x, y)
  }

  /**
   * The `lines().enumerate().flat_map(...)` of `Maze::default`: each character
   * becomes the tile at its column and line.
   */
  function ParseMaze(lines: seq<string>): (m: map<Coord2D, TileType>)
    requires forall y, x :: 0 <= y < |lines| && 0 <= x < |lines[y]| ==> lines[y][x] in Alphabet
    ensures forall c :: c in m <==> 0 <= c.y < |lines| && 0 <= c.x < |lines[c.y]|
    ensures forall c :: c in m ==> ToChar(m[c]) == lines[c.y][c.x]
  {
    assert forall c :: c in Cells(lines) <==> 0 <= c.y < |lines| && 0 <= c.x < |lines[c.y]| by {
      forall c: Coord2D | 0 <= c.y < |lines| && 0 <= c.x < |lines[c.y]| ensures c in Cells(lines) {
        assert c == Coord2D(c.x, c.y);
      }
    }
    map c | c in Cells(lines) :: FromChar(lines[c.y][c.x])
  }

  /** A tile Pac-Man may stand on. */
  predicate Walkable(t: TileType)
  {
    t == Path || t == Food
  }

  class Maze {
    var width: int
    var height: int
    var maze: map<Coord2D, TileType>

    /** The tile map covers exactly the width x height rectangle. */
    ghost predicate Valid()
      reads this
    {
      maze.Keys == Grid(width, height)
    }

    /** `Maze::default`: parse the compiled-in layout; its size is that of the first line and the line count. */
    constructor Default()
      ensures Valid() && width == 20 && height == 20
      ensures forall c :: c in maze ==> ToChar(maze[c]) == MazeRows[c.y][c.x]
      ensures WalledIn(maze) && maze[Coord2D(1, 18)] == Food
    {
      var lines := Lines(MazeString);
      MazeLines();
      MazeRowsOk();
      width := |lines[0]|;
      height := |lines|;
      maze := ParseMaze(lines);
      new;
      forall c ensures c in maze <==> c in Grid(width, height) {
        GridMembership(width, height, c);
        if 0 <= c.y < 20 {
          assert RowOk(MazeRows[c.y]);
        }
      }
      LayoutFacts(maze);
    }

    /** `get_width`: every cell of the map lies in a column below it. */
    function GetWidth(): (w: int)
      reads this
      ensures Valid() ==> forall c :: c in maze ==> 0 <= c.x < w
    {
      width
    }

    /** `get_height`: every cell of the map lies in a line below it. */
    function GetHeight(): (h: int)
      reads this
      ensures Valid() ==> forall c :: c in maze ==> 0 <= c.y < h
    {
      height
    }

    /** `get_tile`: the tile at c, or None when the map has no such cell. */
    function GetTile(c: Coord2D): (t: Option<TileType>)
      reads this
      ensures t.Some? <==> c in maze
      ensures t.Some? ==> t.value == maze[c]
      ensures Valid() ==> (t.None? <==> !(0 <= c.x < width && 0 <= c.y < height))
    {
      GridMembership(width, height, c);
      if c in maze then Some(maze[c]) else None
    }

    /** `get_tile_at`: `get_tile` on the pair (x, y). */
    function GetTileAt(x: int, y: int): (t: Option<TileType>)
      reads this
      ensures t == GetTile(Coord2D(x, y))
      ensures Valid() ==> (t.None? <==> !(0 <= x < width && 0 <= y < height))
    {
      GetTile(Coord2D(x, y))
    }

    /** `collides_with`: anything but a Path or Food tile blocks, and so does a cell off the map. */
    function CollidesWith(c: Coord2D): (b: bool)
      reads this
      ensures !b <==> c in maze && Walkable(maze[c])
      ensures c !in maze ==> b
    {
      match GetTile(c)
      case Some(Path) => false
      case Some(Food) => false
      case _ => true
    }

    /**
     * `eat_food_at`: a Food tile at (x, y) becomes Path and the answer is
     * true; otherwise nothing changes and the answer is false.
     */
    method EatFoodAt(x: int, y: int) returns (eaten: bool)
      modifies this`maze
      ensures eaten <==> old(GetTile(Coord2D(x, y))) == Some(Food)
      ensures eaten ==> maze == old(maze)[Coord2D(x, y) := Path]
      ensures !eaten ==> maze == old(maze)
      ensures GetTile(Coord2D(x, y)) != Some(Food)
      ensures forall c :: CollidesWith(c) == old(CollidesWith(c))
      ensures old(WalledIn(maze)) ==> WalledIn(maze)
    {
      var c := Coord2D(x, y);
      if c in maze && maze[c] == Food {
        maze := maze[c := Path];
        return true;
      }
      return false;
    }
  }

  /** The shipped layout is walled in: its first and last line and column are all '#'. */
  lemma BorderIsWall()
    ensures forall x :: 0 <= x < 20 ==> MazeRows[0][x] == '#' && MazeRows[19][x] == '#'
    ensures forall y :: 0 <= y < 20 ==> MazeRows[y][0] == '#' && MazeRows[y][19] == '#'
  {
    assert MazeRows[0] == "####################" && MazeRows[19] == "####################";
    forall y | 0 <= y < 20 ensures MazeRows[y][0] == '#' && MazeRows[y][19] == '#' {
      MazeRowsOk();
    }
  }

  /** A 20 x 20 tile map whose outermost ring of cells is all Wall. */
  predicate WalledIn(m: map<Coord2D, TileType>)
  {
    m.Keys == Grid(20, 20) &&
    forall c :: c in m && (c.x == 0 || c.x == 19 || c.y == 0 || c.y == 19) ==> m[c] == Wall
  }

  /** A map that spells out the shipped layout is walled in, and Pac-Man's start cell (1, 18) holds Food. */
  lemma LayoutFacts(m: map<Coord2D, TileType>)
    requires m.Keys == Grid(20, 20)
    requires forall c :: c in m ==> ToChar(m[c]) == MazeRows[c.y][c.x]
    ensures WalledIn(m) && m[Coord2D(1, 18)] == Food
  {
    BorderIsWall();
    forall c | c in m && (c.x == 0 || c.x == 19 || c.y == 0 || c.y == 19) ensures m[c] == Wall {
      GridMembership(20, 20, c);
      assert ToChar(m[c]) == '#';
    }
    var start := Coord2D(1, 18);
    GridMembership(20, 20, start);
    assert MazeRows[18][1] == '.';
    assert ToChar(m[start]) == '.';
  }

  /**
   * In a walled-in map a walkable cell lies strictly inside the border, so
   * the neighbour in every direction is a cell of the map.
   */
  lemma WalkableNeighboursInside(m: map<Coord2D, TileType>, c: Coord2D, d: Dir2D)
    requires WalledIn(m) && c in m && Walkable(m[c])
    ensures 1 <= c.x <= 18 && 1 <= c.y <= 18
    ensures Add(c, AsCoord(d)) in m
  {
    GridMembership(20, 20, c);
    GridMembership(20, 20, Add(c, AsCoord(d)));
  }

  /** Eating twice at one cell: the second call finds no Food. */
  method EatTwice(m: Maze, x: int, y: int) returns (first: bool, second: bool)
    modifies m
    ensures first <==> old(m.GetTile(Coord2D(x, y))) == Some(Food)
    ensures !second
  {
    first := m.EatFoodAt(x, y);
    second := m.EatFoodAt(x, y);
  }
}
