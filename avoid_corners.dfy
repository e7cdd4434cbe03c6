/**
 * AvoidCornersStrategy: drop the valid moves diagonally next to a corner, sort the
 * rest by compareTo and take the first. The game is seen through its move list and
 * board size.
 */
module AvoidCorners {
  import opened Outcomes
  import opened Moves
  import opened Grid

  /** `isNextToCorner`: one of the four diagonal neighbours (q±1, r±1) is a corner. */
  predicate IsNextToCorner(m: Move, boardSize: int) {
    || IsCorner(m.q - 1, m.r - 1, boardSize)
    || IsCorner(m.q - 1, m.r + 1, boardSize)
    || IsCorner(m.q + 1, m.r - 1, boardSize)
    || IsCorner(m.q + 1, m.r + 1, boardSize)
  }

  /** On the board, the moves next to a corner are exactly those with q and r both in {1, size-2}. */
  lemma NextToCornerOnBoard(m: Move, boardSize: int)
    requires InSquare(boardSize, m.q, m.r)
    ensures IsNextToCorner(m, boardSize) <==>
      (m.q == 1 || m.q == boardSize - 2) && (m.r == 1 || m.r == boardSize - 2)
  {
  }

  /** The safe moves, in list order. */
  function SafeMoves(ms: seq<Move>, boardSize: int): (safe: seq<Move>)
    ensures forall m :: m in safe <==> m in ms && !IsNextToCorner(m, boardSize)
  {
    if ms == [] then []
    else
      var init := ms[..|ms| - 1];
      var last := ms[|ms| - 1];
      assert ms == init + [last];
      SafeMoves(init, boardSize) + (if IsNextToCorner(last, boardSize) then [] else [last])
  }

  /**
   * `chooseMove`. None exactly when every valid move is next to a corner (an empty list
   * included); otherwise a valid move that is not next to a corner and that no other
   * such move precedes in compareTo order.
   */
  method ChooseMove(validMoves: seq<Move>, boardSize: int) returns (m: Option<Move>)
    ensures m.None? <==> forall i :: 0 <= i < |validMoves| ==> IsNextToCorner(validMoves[i], boardSize)
    ensures m.Some? ==> m.value in validMoves && !IsNextToCorner(m.value, boardSize)
    ensures m.Some? ==> forall v :: v in validMoves && !IsNextToCorner(v, boardSize) ==> !Less(v, m.value)
  {
    var safeMoves: seq<Move> := [];
    for i := 0 to |validMoves|
      invariant safeMoves == SafeMoves(validMoves[..i], boardSize)
    {
      assert validMoves[..i + 1] == validMoves[..i] + [validMoves[i]];
      if !IsNextToCorner(validMoves[i], boardSize) {
        safeMoves := safeMoves + [validMoves[i]];
      }
    }
    assert validMoves[..|validMoves|] == validMoves;
    if safeMoves != [] {
      return Some(Least(safeMoves));
    }
    assert forall i :: 0 <= i < |validMoves| ==> validMoves[i] in validMoves;
    return None;
  }
}
