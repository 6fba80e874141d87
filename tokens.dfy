/** The values the lexer deals in: source bytes, line/column locations and
    tokens, with the membership test and the per-byte position rule. */
module Tokens {

  /** A byte of the source (`u8`). */
  newtype byte = x: int | 0 <= x < 256

  /** A positive counter (`usize` that starts at 1 and only grows). */
  type Pos = n: int | 1 <= n witness 1

  const NUL: byte := 0
  const NEWLINE: byte := 10   // '\n'

  // The eight symbols of the language, as bytes.
  const PLUS: byte := 43      // '+'
  const COMMA: byte := 44     // ','
  const MINUS: byte := 45     // '-'
  const DOT: byte := 46       // '.'
  const LESS: byte := 60      // '<'
  const GREATER: byte := 62   // '>'
  const OPEN: byte := 91      // '['
  const CLOSE: byte := 93     // ']'

  /** A line/column cursor; a token keeps a copy of it. */
  datatype Location = Location(line: Pos, column: Pos) {

    /** `Location::default()`: the start of a file. */
    static function Default(): (l: Location)
      ensures l.line == 1 && l.column == 1
    {
      Location(1, 1)
    }

    /** Strict lexicographic order on (line, column). */
    predicate Before(other: Location) {
      line < other.line || (line == other.line && column < other.column)
    }
  }

  /** A significant symbol together with the location it was stamped with. */
  datatype Token = Token(symbol: byte, location: Location)

  /** `Lexer::in_language`: is `c` one of `> < + - . , [ ]`? Every other
      byte, NUL, newline and all non-ASCII bytes included, is skipped. */
  function InLanguage(c: byte): (r: bool)
    ensures r ==> c != NUL && c != NEWLINE && c < 128
    ensures r <==> c in {PLUS, COMMA, MINUS, DOT, LESS, GREATER, OPEN, CLOSE}
  {
    match c
    case GREATER | LESS | PLUS | MINUS | DOT | COMMA | OPEN | CLOSE => true
    case _ => false
  }

  /** The update every read step applies to the location, given the byte
      left in the one-byte buffer: the column goes up by one, and a newline
      then moves to the next line and resets the column to 1. */
  function Advance(loc: Location, b: byte): (r: Location)
    ensures r.line == if b == NEWLINE then loc.line + 1 else loc.line
    ensures r.column == if b == NEWLINE then 1 else loc.column + 1
  {
    var bumped := loc.(column := loc.column + 1);
    if b == NEWLINE then Location(bumped.line + 1, 1) else bumped
  }
}
