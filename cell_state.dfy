/** The contents of a cell and its one-character rendering. */
module CellStates {

  datatype CellState = X | O | Empty

  /** `CellState.toString`. */
  function ToString(s: CellState): (t: string)
    ensures |t| == 1
    ensures t == "_" <==> s == Empty
    ensures t == "X" <==> s == X
    ensures t == "O" <==> s == O
  {
    match s
    case X => "X"
    case O => "O"
    case Empty => "_"
  }

  /** The one character of the rendering. */
  function Glyph(s: CellState): (c: char)
    ensures ToString(s) == [c]
    ensures c == '_' || c == 'X' || c == 'O'
  {
    ToString(s)[0]
  }

  /** The rendering is injective: distinct states never print alike. */
  lemma ToStringInjective(a: CellState, b: CellState)
    requires ToString(a) == ToString(b)
    ensures a == b
  {
  }

  /** The opponent state the flip routines compute as `s == X ? O : X`. */
  function OpponentState(s: CellState): (t: CellState)
    ensures t != Empty && t != s
  {
    if s == X then O else X
  }

  lemma OpponentStateInvolution(s: CellState)
    requires s != Empty
    ensures OpponentState(OpponentState(s)) == s
  {
  }
}
