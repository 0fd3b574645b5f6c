/** The tile alphabet of the `pacman` crate's maze layout. */
module PacmanUtil {

  datatype TileType = Wall | GhostWall | GhostSpawn | Path | Food

  /** The characters `from_char` accepts; any other one makes it panic. */
  const Alphabet: set<char> := {'#', '?', 'X', '.', ' '}

  /** `TileType::from_char`. */
  function FromChar(c: char): (t: TileType)
    requires c in Alphabet
    ensures ToChar(t) == c
  {
    match c
    case '#' => Wall
    case '?' => GhostWall
    case 'X' => GhostSpawn
    case '.' => Food
    case ' ' => Path
  }

  /** The layout character of each tile kind. */
  function ToChar(t: TileType): (c: char)
    ensures c in Alphabet
  {
    match t
    case Wall => '#'
    case GhostWall => '?'
    case GhostSpawn => 'X'
    case Food => '.'
    case Path => ' '
  }

  /** Every tile kind is produced by its own character. */
  lemma FromCharOnto(t: TileType)
    ensures FromChar(ToChar(t)) == t
  {
  }

  /** Distinct characters of the alphabet give distinct tiles. */
  lemma FromCharInjective(c: char, d: char)
    requires c in Alphabet && d in Alphabet
    ensures FromChar(c) == FromChar(d) ==> c == d
  {
  }

  /** Each tile kind comes from exactly one character of the alphabet. */
  lemma ExactlyOneChar(t: TileType, c: char)
    requires c in Alphabet
    ensures FromChar(c) == t <==> c == ToChar(t)
  {
  }
}
