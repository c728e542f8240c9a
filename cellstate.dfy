/** The value types of the board engine: cell marks, game outcomes,
    cursor directions, and the numeric code of each mark. */
module CellStates {

  /** An unsigned 8-bit integer. */
  newtype u8 = x: int | 0 <= x < 256

  /** The content of one cell. Hover marks where the cursor rests and,
      like Empty, leaves the cell free. */
  datatype CellState = Empty | Cross | Circle | Hover {
    predicate IsFree() {
      this == Empty || this == Hover
    }
  }

  /** The classification of a board. */
  datatype WinState = Unfinished | Tie | Win | Loss

  /** A cursor movement. */
  datatype Direction = Up | Right | Down | Left

  /** An optional value: None where the program reports no result. */
  datatype Option<T> = None | Some(value: T)

  /** The numeric code of a mark. */
  function ToCode(s: CellState): (v: u8)
    ensures v <= 3
  {
    match s
    case Empty => 0
    case Cross => 1
    case Circle => 2
    case Hover => 3
  }

  /** The mark with a given code; codes above 3 are refused. */
  function FromCode(v: u8): (s: CellState)
    requires v <= 3
    ensures ToCode(s) == v
  {
    match v
    case 0 => Empty
    case 1 => Cross
    case 2 => Circle
    case _ => Hover
  }

  /** Encoding a mark and decoding the code gives the mark back. */
  lemma CodeRoundTrip(s: CellState)
    ensures FromCode(ToCode(s)) == s
  {
  }

  /** The single character a mark is drawn as. */
  function Glyph(s: CellState): (g: char)
    ensures g in {' ', 'X', 'O', '@'}
  {
    match s
    case Empty => ' '
    case Cross => 'X'
    case Circle => 'O'
    case Hover => '@'
  }

  /** Different marks are drawn differently. */
  lemma GlyphInjective(s: CellState, t: CellState)
    ensures Glyph(s) == Glyph(t) ==> s == t
  {
  }
}
