/**
 * GoForCornersStrategy: the first corner among the game's valid moves.
 * The game is seen through what the strategy reads of it: its move list and board size.
 */
module GoForCorners {
  import opened Outcomes
  import opened Moves

  /** `isCorner(move, boardSize)`. */
  predicate MoveIsCorner(m: Move, boardSize: int) {
    IsCorner(m.q, m.r, boardSize)
  }

  /**
   * `chooseMove`: the linear search over `validMoves`. A corner found is a member of the
   * list, and None means that no listed move is a corner
   * (an empty list included).
   */
  function ChooseMove(validMoves: seq<Move>, boardSize: int): (m: Option<Move>)
    ensures m.Some? ==> m.value in validMoves && MoveIsCorner(m.value, boardSize)
    ensures m.None? <==> forall i :: 0 <= i < |validMoves| ==> !MoveIsCorner(validMoves[i], boardSize)
  {
    if validMoves == [] then None
    else if MoveIsCorner(validMoves[0], boardSize) then Some(validMoves[0])
    else ChooseMove(validMoves[1..], boardSize)
  }

  /** The corner chosen is the first one: every move listed before it is not a corner. */
  lemma {:induction false} ChooseMoveIsFirst(validMoves: seq<Move>, boardSize: int)
    requires ChooseMove(validMoves, boardSize).Some?
    ensures exists i :: 0 <= i < |validMoves| && validMoves[i] == ChooseMove(validMoves, boardSize).value &&
              forall j :: 0 <= j < i ==> !MoveIsCorner(validMoves[j], boardSize)
  {
    if !MoveIsCorner(validMoves[0], boardSize) {
      var rest := validMoves[1..];
      ChooseMoveIsFirst(rest, boardSize);
      var i :| 0 <= i < |rest| && rest[i] == ChooseMove(rest, boardSize).value &&
               forall j :: 0 <= j < i ==> !MoveIsCorner(rest[j], boardSize);
      assert validMoves[i + 1] == rest[i];
    }
  }

  /** Moves that are not corners do not change the choice when put in front. */
  lemma {:induction false} NonCornersIgnored(front: seq<Move>, rest: seq<Move>, boardSize: int)
    requires forall i :: 0 <= i < |front| ==> !MoveIsCorner(front[i], boardSize)
    ensures ChooseMove(front + rest, boardSize) == ChooseMove(rest, boardSize)
  {
    if front != [] {
      assert (front + rest)[0] == front[0] && !MoveIsCorner(front[0], boardSize);
      assert forall i :: 0 <= i < |front| - 1 ==> front[1..][i] == front[i + 1];
      assert (front + rest)[1..] == front[1..] + rest;
      NonCornersIgnored(front[1..], rest, boardSize);
    } else {
      assert front + rest == rest;
    }
  }
}
