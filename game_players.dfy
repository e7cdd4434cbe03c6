/** The two seats and the piece colour each one places. */
module GamePlayers {
  import opened CellStates

  datatype Player = Black | White

  /** `getCellState`: Black places X, White places O. */
  function StateOf(p: Player): (s: CellState)
    ensures s != Empty
    ensures p == Black <==> s == X
    ensures p == White <==> s == O
  {
    match p
    case Black => X
    case White => O
  }

  /** Distinct players own distinct colours. */
  lemma StateOfInjective(a: Player, b: Player)
    requires StateOf(a) == StateOf(b)
    ensures a == b
  {
  }

  /** `getOpponent` / `changePlayer`. */
  function Other(p: Player): (o: Player)
    ensures o != p
    ensures StateOf(o) == OpponentState(StateOf(p))
  {
    if p == Black then White else Black
  }

  lemma OtherInvolution(p: Player)
    ensures Other(Other(p)) == p
  {
  }
}
