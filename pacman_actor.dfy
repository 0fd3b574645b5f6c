/**
 * Pac-Man himself: a position and a facing direction, a one-cell step, the
 * wall gate of `move_pacman_forward` and the key priority of `rotate_pacman`.
 */
module PacmanActor {
  import opened Coords
  import opened Collections
  import opened Directions
  import opened PacmanMaze

  /** The keys `rotate_pacman` looks at; any other key is `Other`. */
  datatype Key = H | J | K | L | ArrowLeft | ArrowDown | ArrowUp | ArrowRight | Other(code: int)

  /** The direction a key asks for, if any. */
  function KeyDir(k: Key): Option<Dir2D>
  {
    match k
    case H => Some(Left)
    case ArrowLeft => Some(Left)
    case J => Some(Down)
    case ArrowDown => Some(Down)
    case K => Some(Up)
    case ArrowUp => Some(Up)
    case L => Some(Right)
    case ArrowRight => Some(Right)
    case Other(_) => None
  }

  /** The order in which `rotate_pacman` tests the key pairs: lower wins. */
  function Rank(d: Dir2D): nat
  {
    match d
    case Left => 0
    case Down => 1
    case Up => 2
    case Right => 3
  }

  /** Some pressed key asks for a direction. */
  predicate AnyDirKey(pressed: set<Key>)
  {
    exists k :: k in pressed && KeyDir(k).Some?
  }

  /**
   * The `if … else if …` chain of `rotate_pacman`: with a direction key held
   * the new direction is one a held key asks for and outranks every other
   * held key's; with none held the direction is kept.
   */
  function ChooseDir(pressed: set<Key>, current: Dir2D): (d: Dir2D)
    ensures !AnyDirKey(pressed) ==> d == current
    ensures AnyDirKey(pressed) ==> exists k :: k in pressed && KeyDir(k) == Some(d)
    ensures forall k :: k in pressed && KeyDir(k).Some? ==> Rank(d) <= Rank(KeyDir(k).value)
  {
    if H in pressed || ArrowLeft in pressed then Left
    else if J in pressed || ArrowDown in pressed then Down
    else if K in pressed || ArrowUp in pressed then Up
    else if L in pressed || ArrowRight in pressed then Right
    else
      assert forall k :: k in pressed ==> KeyDir(k).None?;
      current
  }

  /** The chosen direction is the only one that both is asked for and outranks every held key. */
  lemma ChoiceIsUnique(pressed: set<Key>, current: Dir2D, e: Dir2D)
    requires exists k :: k in pressed && KeyDir(k) == Some(e)
    requires forall k :: k in pressed && KeyDir(k).Some? ==> Rank(e) <= Rank(KeyDir(k).value)
    ensures ChooseDir(pressed, current) == e
  {
    var d := ChooseDir(pressed, current);
    var k :| k in pressed && KeyDir(k) == Some(e);
    var k' :| k' in pressed && KeyDir(k') == Some(d);
    assert Rank(d) <= Rank(e) && Rank(e) <= Rank(d);
  }

  /** Holding a key for every direction turns Pac-Man left. */
  lemma LeftBeatsAll(current: Dir2D)
    ensures ChooseDir({L, K, J, H}, current) == Left
    ensures ChooseDir({ArrowDown, ArrowRight}, current) == Down
    ensures ChooseDir({Other(7)}, current) == current
  {
  }

  class Pacman {
    var pos: Coord2D
    var dir: Dir2D

    /** `Pacman::default`: bottom-left corridor, facing right. */
    constructor Default()
      ensures pos == Coord2D(1, 18) && dir == Right
    {
      pos := Coord2D(1, 18);
      dir := Right;
    }

    /** `get_pos`: the cell `get_next_pos` steps away from. */
    function GetPos(): (p: Coord2D)
      reads this
      ensures p == pos
      ensures GetNextPos() == Add(p, AsCoord(dir))
    {
      pos
    }

    /** `get_next_pos`: the cell one step ahead, a direct neighbour of the current one. */
    function GetNextPos(): (p: Coord2D)
      reads this
      ensures p != pos
      ensures (p.x == pos.x && (p.y == pos.y + 1 || p.y == pos.y - 1))
           || (p.y == pos.y && (p.x == pos.x + 1 || p.x == pos.x - 1))
    {
      Add(pos, AsCoord(dir))
    }

    /** `step_once`: move to the cell `get_next_pos` named, whatever is there; the direction stays. */
    method StepOnce()
      modifies this`pos
      ensures pos == old(GetNextPos())
      ensures pos == Add(old(pos), AsCoord(dir))
    {
      pos := Add(pos, AsCoord(dir));
    }

    /** `set_dir`: only the direction changes. */
    method SetDir(d: Dir2D)
      modifies this`dir
      ensures dir == d
    {
      dir := d;
    }

    /**
     * The gate of `move_pacman_forward`: step only on a timer tick and when
     * the cell ahead is a Path or Food tile of the maze.
     */
    function MayStep(fired: bool, maze: Maze): (b: bool)
      reads this, maze
      ensures b <==> fired && GetNextPos() in maze.maze && Walkable(maze.maze[GetNextPos()])
      ensures b ==> !maze.CollidesWith(GetNextPos())
    {
      fired && !maze.CollidesWith(GetNextPos())
    }

    /**
     * `move_pacman_forward` without its sprites: a gated step. Standing on a
     * walkable cell, Pac-Man is still on one afterwards.
     */
    method MovePacmanForward(fired: bool, maze: Maze)
      modifies this`pos
      ensures pos == if old(MayStep(fired, maze)) then old(GetNextPos()) else old(pos)
      ensures !maze.CollidesWith(old(pos)) ==> !maze.CollidesWith(pos)
    {
      if MayStep(fired, maze) {
        StepOnce();
      }
    }

    /** `rotate_pacman`: take the direction the held keys choose. */
    method RotatePacman(pressed: set<Key>)
      modifies this`dir
      ensures dir == ChooseDir(pressed, old(dir))
    {
      SetDir(ChooseDir(pressed, dir));
    }
  }

  /**
   * A fresh game: the default maze and the default Pac-Man, who starts on a
   * walkable cell strictly inside the walls.
   */
  method NewGame() returns (maze: Maze, pacman: Pacman)
    ensures maze.Valid() && WalledIn(maze.maze)
    ensures pacman.pos == Coord2D(1, 18) && pacman.dir == Right
    ensures !maze.CollidesWith(pacman.GetPos())
  {
    maze := new Maze.Default();
    pacman := new Pacman.Default();
  }

  /**
   * One frame of play on a walled-in maze, in the order the plugin chains its
   * systems: turn, then take a gated step (the eating system only reports).
   * The maze is untouched, Pac-Man stays on a walkable cell and every
   * neighbour of it stays on the map.
   */
  method Frame(maze: Maze, pacman: Pacman, pressed: set<Key>, fired: bool)
    requires WalledIn(maze.maze) && !maze.CollidesWith(pacman.pos)
    modifies pacman
    ensures pacman.dir == ChooseDir(pressed, old(pacman.dir))
    ensures !maze.CollidesWith(pacman.pos)
    ensures forall d :: Add(pacman.pos, AsCoord(d)) in maze.maze
  {
    pacman.RotatePacman(pressed);
    pacman.MovePacmanForward(fired, maze);
    forall d ensures Add(pacman.pos, AsCoord(d)) in maze.maze {
      WalkableNeighboursInside(maze.maze, pacman.pos, d);
    }
  }
}
