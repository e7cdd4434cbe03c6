/**
 * CaptureStrategy: score every valid move of the game by playing it on a freshly
 * constructed hexagonal ReversiGame and counting the EMPTY cells of [0,size)^2 that the
 * mover "captures" there; pick the best.
 */
module CaptureStrategies {
  import opened Outcomes
  import opened CellStates
  import opened GamePlayers
  import opened HexCoordinates
  import opened Moves
  import opened Grid
  import opened Flips
  import opened HexBoard
  import opened HexRules
  import opened HexGame

  /** Every coordinate of [0,size)^2 has a cell, so getCellState never reaches a missing one. */
  ghost predicate SquareStored(cells: map<HexCoordinate, CellState>, size: int) {
    forall c: HexCoordinate :: InSquare(size, c.q, c.r) ==> c in cells
  }

  /**
   * `isCapturedInDirection`: step from (q, r) in direction (dq, dr); leaving [0,size)^2
   * answers false, a cell of p's colour answers true, anything else is stepped over.
   * The test `n in cells` never fails where the whole square is stored (SquareStored),
   * which the methods reading a game require.
   */
  predicate CapturedInDirection(cells: map<HexCoordinate, CellState>, size: int, q: int, r: int,
                                dq: int, dr: int, p: Player)
    requires IsDirection(dq, dr)
    decreases Budget(size, q, r, dq, dr)
  {
    var n := HexCoordinate(q + dq, r + dr);
    InSquare(size, n.q, n.r) && n in cells &&
      (cells[n] == StateOf(p) || CapturedInDirection(cells, size, n.q, n.r, dq, dr, p))
  }

  /** A cell of the square holding p's colour. */
  predicate OwnAt(cells: map<HexCoordinate, CellState>, size: int, c: HexCoordinate, p: Player) {
    InSquare(size, c.q, c.r) && c in cells && cells[c] == StateOf(p)
  }

  /** A capturing direction has an own piece k >= 1 steps along it. */
  lemma {:induction false} CapturedHasOwnAhead(cells: map<HexCoordinate, CellState>, size: int, q: int, r: int,
                                               dq: int, dr: int, p: Player) returns (k: int)
    requires IsDirection(dq, dr)
    requires CapturedInDirection(cells, size, q, r, dq, dr, p)
    ensures 1 <= k && OwnAt(cells, size, Step(q, r, dq, dr, k), p)
    decreases Budget(size, q, r, dq, dr)
  {
    var n := HexCoordinate(q + dq, r + dr);
    if cells[n] == StateOf(p) {
      k := 1;
    } else {
      var k' := CapturedHasOwnAhead(cells, size, n.q, n.r, dq, dr, p);
      k := k' + 1;
      assert Step(n.q, n.r, dq, dr, k') == Step(q, r, dq, dr, k);
    }
  }

  /** From a cell of the square, an own piece k >= 1 steps along a direction makes it capture. */
  lemma {:induction false} OwnAheadCaptures(cells: map<HexCoordinate, CellState>, size: int, q: int, r: int,
                                            dq: int, dr: int, p: Player, k: int)
    requires IsDirection(dq, dr) && SquareStored(cells, size) && InSquare(size, q, r)
    requires 1 <= k && OwnAt(cells, size, Step(q, r, dq, dr, k), p)
    ensures CapturedInDirection(cells, size, q, r, dq, dr, p)
    decreases k
  {
    var n := HexCoordinate(q + dq, r + dr);
    if k > 1 {
      assert Step(n.q, n.r, dq, dr, k - 1) == Step(q, r, dq, dr, k);
      assert InSquare(size, n.q, n.r);
      OwnAheadCaptures(cells, size, n.q, n.r, dq, dr, p, k - 1);
    }
  }

  /**
   * From a cell of the square, a direction captures exactly when some cell along it,
   * still inside the square, holds p's colour; empty and opponent cells before it do
   * not matter.
   */
  lemma CapturedInDirectionSpec(cells: map<HexCoordinate, CellState>, size: int, q: int, r: int,
                                dq: int, dr: int, p: Player)
    requires IsDirection(dq, dr) && SquareStored(cells, size) && InSquare(size, q, r)
    ensures CapturedInDirection(cells, size, q, r, dq, dr, p) <==>
      exists k :: 1 <= k && OwnAt(cells, size, Step(q, r, dq, dr, k), p)
  {
    if CapturedInDirection(cells, size, q, r, dq, dr, p) {
      var k := CapturedHasOwnAhead(cells, size, q, r, dq, dr, p);
    }
    if k :| 1 <= k && OwnAt(cells, size, Step(q, r, dq, dr, k), p) {
      OwnAheadCaptures(cells, size, q, r, dq, dr, p, k);
    }
  }

  /** `isCaptured`: some non-zero (dq, dr) in {-1,0,1}^2 captures. */
  ghost predicate Captured(cells: map<HexCoordinate, CellState>, size: int, q: int, r: int, p: Player) {
    exists dq, dr :: IsDirection(dq, dr) && CapturedInDirection(cells, size, q, r, dq, dr, p)
  }

  /** The filter of countCaptures: an EMPTY cell that p captures. */
  ghost function CaptureKeep(cells: map<HexCoordinate, CellState>, size: int, p: Player): HexCoordinate -> bool {
    c => c in cells && cells[c] == Empty && Captured(cells, size, c.q, c.r, p)
  }

  /**
   * The board a candidate is scored on: a fresh game (size 6, written `size` here)
   * after Black plays it and the AI seat replies. Each fresh game draws its own random
   * reply, so every candidate m has its own pick `aiPicks(m)`.
   */
  ghost function TrialCells(m: Move, size: nat, aiPicks: Move -> nat): map<HexCoordinate, CellState> {
    PlayResult(StartCells(size), size, Black, m.q, m.r, aiPicks(m)).0
  }

  /** The fresh game accepts the candidate; otherwise its play throws. */
  ghost predicate TrialLegal(m: Move, size: nat) {
    HexCoordinate(m.q, m.r) in StartCells(size) && ValidMove(StartCells(size), size, m.q, m.r, Black)
  }

  /** A candidate's score. */
  ghost function Captures(m: Move, size: nat, p: Player, aiPicks: Move -> nat): nat {
    CountIf(Scan(size), CaptureKeep(TrialCells(m, size, aiPicks), size, p))
  }

  /** Trying a candidate on the fresh game, as a function value. */
  ghost function Legal(size: nat): Move -> bool {
    m => TrialLegal(m, size)
  }

  /** Scoring a candidate by its captures. */
  ghost function Score(size: nat, p: Player, aiPicks: Move -> nat): Move -> int {
    m => Captures(m, size, p, aiPicks)
  }

  /** The two function values mean TrialLegal and Captures. */
  lemma TrialFunctions(size: nat, p: Player, aiPicks: Move -> nat)
    ensures forall m {:trigger TrialLegal(m, size)} :: Legal(size)(m) == TrialLegal(m, size)
    ensures forall m {:trigger Captures(m, size, p, aiPicks)} :: Score(size, p, aiPicks)(m) == Captures(m, size, p, aiPicks)
  {
  }

  /** What the selection loop reports, read back in terms of TrialLegal and Captures. */
  lemma SelectionMeaning(ms: seq<Move>, size: nat, p: Player, aiPicks: Move -> nat, result: Result<Option<Move>>)
    requires result.Failure? <==> exists i :: 0 <= i < |ms| && !Legal(size)(ms[i])
    requires result.Success? ==>
      exists k :: FirstMax(ms, k, Score(size, p, aiPicks)) && result.value.Some? && result.value.value == ms[k]
    ensures result.Failure? <==> exists i :: 0 <= i < |ms| && !TrialLegal(ms[i], size)
    ensures result.Success? && result.value.Some? ==>
      exists k :: FirstBest(ms, k, size, p, aiPicks) && result.value.value == ms[k]
  {
    TrialFunctions(size, p, aiPicks);
    if i :| 0 <= i < |ms| && !TrialLegal(ms[i], size) {
      assert !Legal(size)(ms[i]);
    }
  }

  /** k is the first index of ms whose score is maximal. */
  predicate FirstMax(ms: seq<Move>, k: int, score: Move -> int) {
    && 0 <= k < |ms|
    && (forall j :: 0 <= j < |ms| ==> score(ms[j]) <= score(ms[k]))
    && (forall j :: 0 <= j < k ==> score(ms[j]) < score(ms[k]))
  }

  /** The first candidate with the most captures. */
  ghost predicate FirstBest(ms: seq<Move>, k: int, size: nat, p: Player, aiPicks: Move -> nat) {
    FirstMax(ms, k, Score(size, p, aiPicks))
  }

  /**
   * The state of chooseMove's loop after the first i candidates: nothing selected and the
   * maximum at -1 before the first, afterwards candidate k selected with the maximum as its
   * score, k the first of the i to reach it.
   */
  predicate Leading(ms: seq<Move>, i: int, k: int, maxScore: int, selected: Option<Move>, score: Move -> int) {
    && 0 <= k <= i <= |ms|
    && (i == 0 ==> maxScore == -1 && selected.None?)
    && (i > 0 ==> k < i && selected == Some(ms[k]) && maxScore == score(ms[k]))
    && (forall j :: 0 <= j < i ==> score(ms[j]) <= maxScore)
    && (forall j :: 0 <= j < k ==> score(ms[j]) < maxScore)
  }

  /** `isCaptured`: the two loops over dq and dr, skipping (0, 0), returning at the first capturing direction. */
  method IsCaptured(game: ReversiGame, q: int, r: int, p: Player) returns (b: bool)
    requires SquareStored(game.board.cells, game.board.size)
    ensures b == Captured(game.board.cells, game.board.size, q, r, p)
  {
    var cells, size := game.board.cells, game.board.size;
    for dq := -1 to 2
      invariant forall dq', dr' :: -1 <= dq' < dq && IsDirection(dq', dr') ==>
                  !CapturedInDirection(cells, size, q, r, dq', dr', p)
    {
      for dr := -1 to 2
        invariant forall dq', dr' :: (-1 <= dq' < dq || (dq' == dq && -1 <= dr' < dr)) && IsDirection(dq', dr') ==>
                    !CapturedInDirection(cells, size, q, r, dq', dr', p)
      {
        if dq != 0 || dr != 0 {
          if CapturedInDirection(cells, size, q, r, dq, dr, p) {
            return true;
          }
        }
      }
    }
    return false;
  }

  /** `countCaptures`: the EMPTY cells of [0,size)^2 that p captures, at most size^2 of them. */
  method CountCaptures(copyGame: ReversiGame, p: Player) returns (captures: nat)
    requires copyGame.board.size >= 0 && SquareStored(copyGame.board.cells, copyGame.board.size)
    ensures captures == CountIf(Scan(copyGame.board.size), CaptureKeep(copyGame.board.cells, copyGame.board.size, p))
    ensures captures <= copyGame.board.size * copyGame.board.size
  {
    var size := copyGame.board.size;
    ghost var keep := CaptureKeep(copyGame.board.cells, size, p);
    captures := 0;
    var q := 0;
    while q < size
      invariant 0 <= q <= size
      invariant captures == CountIf(Columns(q, size), keep)
    {
      captures := CountColumn(copyGame, p, q, captures);
      q := q + 1;
    }
    CountIfAtMost(Scan(size), keep);
    ScanShape(size);
  }

  /** The inner loop of countCaptures over column q, adding to the count so far. */
  method CountColumn(copyGame: ReversiGame, p: Player, q: int, counted: nat) returns (captures: nat)
    requires 0 <= q < copyGame.board.size && SquareStored(copyGame.board.cells, copyGame.board.size)
    requires counted == CountIf(Columns(q, copyGame.board.size), CaptureKeep(copyGame.board.cells, copyGame.board.size, p))
    ensures captures == CountIf(Columns(q + 1, copyGame.board.size), CaptureKeep(copyGame.board.cells, copyGame.board.size, p))
  {
    var cells, size := copyGame.board.cells, copyGame.board.size;
    ghost var keep := CaptureKeep(cells, size, p);
    captures := counted;
    var r := 0;
    assert Columns(q, size) + Column(q, 0) == Columns(q, size);
    while r < size
      invariant 0 <= r <= size
      invariant captures == CountIf(Columns(q, size) + Column(q, r), keep)
    {
      var done := Columns(q, size) + Column(q, r);
      assert Columns(q, size) + Column(q, r + 1) == done + [HexCoordinate(q, r)];
      CountIfSnoc(done, HexCoordinate(q, r), keep);
      if cells[HexCoordinate(q, r)] == Empty {
        var captured := IsCaptured(copyGame, q, r, p);
        if captured {
          captures := captures + 1;
        }
      }
      r := r + 1;
    }
    assert Columns(q, size) + Column(q, size) == Columns(q + 1, size);
  }

  /**
   * `chooseMove`. The candidates are the game's valid moves in scan order. No candidate:
   * None. A candidate the fresh game refuses: its play throws IllegalArgument. Otherwise
   * the first candidate with the greatest score.
   */
  method ChooseMove(game: ReversiGame, aiPicks: Move -> nat) returns (result: Result<Option<Move>>)
    requires game.Valid() && game.board.size == 6
    ensures var cands := ValidMoves(game.board.cells, game.board.size, game.currentPlayer);
      && (result == Success(None) <==> cands == [])
      && (result.Failure? <==> exists i :: 0 <= i < |cands| && !TrialLegal(cands[i], game.board.size))
      && (result.Failure? ==> result.error == IllegalArgument)
      && (result.Success? && result.value.Some? ==>
            exists k :: FirstBest(cands, k, game.board.size, game.currentPlayer, aiPicks) && result.value.value == cands[k])
  {
    var validMoves := game.GetValidMoves();
    if validMoves == [] {
      return Success(None);
    }
    ValidMovesSpec(game.board.cells, game.board.size, game.currentPlayer);
    TrialFunctions(game.board.size, game.currentPlayer, aiPicks);
    result := SelectMostCaptures(validMoves, game.board.size, game.currentPlayer, aiPicks,
                                 Legal(game.board.size), Score(game.board.size, game.currentPlayer, aiPicks));
    SelectionMeaning(validMoves, game.board.size, game.currentPlayer, aiPicks, result);
  }

  /**
   * The loop of chooseMove over a non-empty ascending candidate list. A strictly greater
   * score replaces the selection; on a tie the compareTo test never passes, because the
   * candidates ascend, and `requireNonNull` never fails, because the first score beats -1.
   * `legal` and `score` stand for TrialLegal and Captures; the triggers keep those two
   * unexpanded here.
   */
  method SelectMostCaptures(validMoves: seq<Move>, size: nat, player: Player, aiPicks: Move -> nat,
                            ghost legal: Move -> bool, ghost score: Move -> int)
    returns (result: Result<Option<Move>>)
    requires size == 6
    requires validMoves != [] && Ascending(validMoves)
    requires forall m :: m in validMoves ==> InSquare(size, m.q, m.r)
    requires forall m {:trigger TrialLegal(m, size)} :: legal(m) == TrialLegal(m, size)
    requires forall m {:trigger Captures(m, size, player, aiPicks)} :: score(m) == Captures(m, size, player, aiPicks)
    ensures result.Failure? <==> exists i :: 0 <= i < |validMoves| && !legal(validMoves[i])
    ensures result.Failure? ==> result.error == IllegalArgument
    ensures result.Success? ==> result.value.Some?
    ensures result.Success? ==>
      exists k :: FirstMax(validMoves, k, score) && result.value.Some? && result.value.value == validMoves[k]
  {
    var maxCaptures: int := -1;
    var selectedMove: Option<Move> := None;
    ghost var k := 0;
    for i := 0 to |validMoves|
      invariant forall j :: 0 <= j < i ==> legal(validMoves[j])
      invariant Leading(validMoves, i, k, maxCaptures, selectedMove, score)
    {
      var o;
      o, maxCaptures, selectedMove, k := Round(validMoves, i, size, player, aiPicks, legal, score, maxCaptures, selectedMove, k);
      if o.Fail? {
        return Failure(o.error);
      }
    }
    assert FirstMax(validMoves, k, score);
    result := Success(selectedMove);
  }

  /** The body of chooseMove's loop for candidate i: its trial, then the comparison. */
  method Round(validMoves: seq<Move>, i: int, size: nat, player: Player, aiPicks: Move -> nat,
               ghost legal: Move -> bool, ghost score: Move -> int,
               maxCaptures: int, selectedMove: Option<Move>, ghost k: int)
    returns (o: Outcome, newMax: int, newSelected: Option<Move>, ghost newK: int)
    requires size == 6
    requires Ascending(validMoves) && 0 <= i < |validMoves| && InSquare(size, validMoves[i].q, validMoves[i].r)
    requires forall m {:trigger TrialLegal(m, size)} :: legal(m) == TrialLegal(m, size)
    requires forall m {:trigger Captures(m, size, player, aiPicks)} :: score(m) == Captures(m, size, player, aiPicks)
    requires Leading(validMoves, i, k, maxCaptures, selectedMove, score)
    ensures o.Fail? <==> !legal(validMoves[i])
    ensures o.Fail? ==> o.error == IllegalArgument
    ensures o.Pass? ==> Leading(validMoves, i + 1, newK, newMax, newSelected, score)
  {
    var captures;
    o, captures := Trial(validMoves[i], size, player, aiPicks);
    newMax, newSelected, newK := maxCaptures, selectedMove, k;
    if o.Pass? {
      newMax, newSelected, newK := Consider(validMoves, i, captures, maxCaptures, selectedMove, k, score);
    }
  }

  /**
   * The comparison in chooseMove's loop for candidate i with score `captures`. A strictly
   * greater score takes the selection. On a tie the compareTo test never passes, because
   * the candidates ascend.
   */
  method Consider(validMoves: seq<Move>, i: int, captures: nat, maxCaptures: int, selectedMove: Option<Move>,
                  ghost k: int, ghost score: Move -> int)
    returns (newMax: int, newSelected: Option<Move>, ghost newK: int)
    requires Ascending(validMoves) && 0 <= i < |validMoves|
    requires captures == score(validMoves[i])
    requires Leading(validMoves, i, k, maxCaptures, selectedMove, score)
    ensures Leading(validMoves, i + 1, newK, newMax, newSelected, score)
  {
    newMax, newSelected, newK := maxCaptures, selectedMove, k;
    if captures > maxCaptures {
      newMax, newSelected, newK := captures, Some(validMoves[i]), i;
    } else if captures == maxCaptures {
      assert Less(validMoves[k], validMoves[i]);
      if CompareTo(validMoves[i], selectedMove.value) < 0 {
        newMax, newSelected, newK := captures, Some(validMoves[i]), i;
      }
    }
  }

  /**
   * One round of chooseMove's loop: play the candidate on a new game and count the
   * captures there. `size` is the size of that new game's board.
   */
  method Trial(move: Move, size: nat, player: Player, aiPicks: Move -> nat) returns (o: Outcome, captures: nat)
    requires size == 6
    requires InSquare(size, move.q, move.r)
    ensures o.Fail? <==> !TrialLegal(move, size)
    ensures o.Fail? ==> o.error == IllegalArgument
    ensures o.Pass? ==> captures == Captures(move, size, player, aiPicks)
  {
    var copyGame := new ReversiGame();
    copyGame.SquareIsStored();
    o := copyGame.Play(move.q, move.r, aiPicks(move));
    if o.Fail? {
      return o, 0;
    }
    copyGame.SquareIsStored();
    captures := CountCaptures(copyGame, player);
  }
}
