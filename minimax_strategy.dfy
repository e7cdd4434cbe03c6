/**
 * MinimaxStrategy on the hexagonal ReversiGame. The search places trial pieces on the
 * live board with `board.move` and takes each one back with `move(q, r, EMPTY)`. It
 * never switches player: every trial piece has the colour of the player to move, and
 * every node value is scored for that player.
 */
module MinimaxStrategies {
  import opened Outcomes
  import opened CellStates
  import opened GamePlayers
  import opened HexCoordinates
  import opened Cells
  import opened Moves
  import opened Grid
  import opened HexBoard
  import opened HexRules
  import opened AbstractModels
  import opened HexGame

  /** `Integer.MIN_VALUE` and `Integer.MAX_VALUE`. */
  const MinInt: int := -0x8000_0000
  const MaxInt: int := 0x7fff_ffff

  /** The depth chooseMove hands to evaluateOpponentMove. */
  const SearchDepth: nat := 3

  function At(m: Move): HexCoordinate {
    HexCoordinate(m.q, m.r)
  }

  /** The leaf value: score(current) - score(opponent). */
  function Margin(cells: map<HexCoordinate, CellState>, size: nat, p: Player): int {
    ScoreOf(cells, size, p) - ScoreOf(cells, size, Other(p))
  }

  /** Every listed move names a stored cell. */
  predicate Stored(cells: map<HexCoordinate, CellState>, moves: seq<Move>) {
    forall m :: m in moves ==> At(m) in cells
  }

  lemma ValidMovesStored(cells: map<HexCoordinate, CellState>, size: nat, p: Player)
    ensures Stored(cells, ValidMoves(cells, size, p))
  {
    ValidMovesSpec(cells, size, p);
  }

  // ---------------------------------------------------------------------------
  // The search as written: the board each trial leaves behind is the next trial's board.
  // ---------------------------------------------------------------------------

  /** evaluateOpponentMove: the node value, and the board the search leaves behind. */
  function Eval(cells: map<HexCoordinate, CellState>, size: nat, p: Player, depth: nat)
    : (int, map<HexCoordinate, CellState>)
    decreases depth, 2
  {
    if depth == 0 || GameOver(cells, size) then (Margin(cells, size, p), cells)
    else EvalMoves(cells, size, p, depth, ValidMoves(cells, size, p), MaxInt)
  }

  /** The loop of evaluateOpponentMove over the moves still to try, with the running minimum. */
  function EvalMoves(cells: map<HexCoordinate, CellState>, size: nat, p: Player, depth: nat,
                     moves: seq<Move>, minScore: int): (int, map<HexCoordinate, CellState>)
    requires depth > 0
    decreases depth, 1, |moves|
  {
    if moves == [] then (minScore, cells)
    else
      var (score, next) := Probe(cells, size, p, depth - 1, moves[0]);
      EvalMoves(next, size, p, depth, moves[1..], Min(minScore, score))
  }

  /** One trial: place p's piece on m, evaluate at `depth`, then set the cell EMPTY. */
  function Probe(cells: map<HexCoordinate, CellState>, size: nat, p: Player, depth: nat, m: Move)
    : (int, map<HexCoordinate, CellState>)
    decreases depth, 3
  {
    var (score, after) := Eval(cells[At(m) := StateOf(p)], size, p, depth);
    (score, after[At(m) := Empty])
  }

  /** The values the trials of `moves` produce, in order, each on the board the previous one left. */
  function ProbeScores(cells: map<HexCoordinate, CellState>, size: nat, p: Player, depth: nat, moves: seq<Move>)
    : (scores: seq<int>)
    ensures |scores| == |moves|
    decreases |moves|
  {
    if moves == [] then []
    else
      var (score, next) := Probe(cells, size, p, depth, moves[0]);
      [score] + ProbeScores(next, size, p, depth, moves[1..])
  }

  /** The loop of chooseMove over the moves still to try, with the best move and score so far. */
  function ChooseFrom(cells: map<HexCoordinate, CellState>, size: nat, p: Player, moves: seq<Move>,
                      best: Option<Move>, bestScore: int): (Option<Move>, map<HexCoordinate, CellState>)
    decreases |moves|
  {
    if moves == [] then (best, cells)
    else
      var (score, next) := Probe(cells, size, p, SearchDepth, moves[0]);
      if score > bestScore then ChooseFrom(next, size, p, moves[1..], Some(moves[0]), score)
      else ChooseFrom(next, size, p, moves[1..], best, bestScore)
  }

  /** chooseMove: the move picked and the board left behind. */
  function Minimax(cells: map<HexCoordinate, CellState>, size: nat, p: Player)
    : (Option<Move>, map<HexCoordinate, CellState>)
  {
    ChooseFrom(cells, size, p, ValidMoves(cells, size, p), None, MinInt)
  }

  // ---------------------------------------------------------------------------
  // Picking the first best move of a scored list.
  // ---------------------------------------------------------------------------

  /** Position k holds the largest score, and every earlier score is strictly smaller. */
  predicate FirstMaxAt(scores: seq<int>, k: int) {
    && 0 <= k < |scores|
    && (forall j :: 0 <= j < |scores| ==> scores[j] <= scores[k])
    && (forall j :: 0 <= j < k ==> scores[j] < scores[k])
  }

  /** The replacement rule `score > bestScore`, applied left to right. */
  function PickFirstBest(moves: seq<Move>, scores: seq<int>, best: Option<Move>, bestScore: int): Option<Move>
    requires |moves| == |scores|
  {
    if moves == [] then best
    else if scores[0] > bestScore then PickFirstBest(moves[1..], scores[1..], Some(moves[0]), scores[0])
    else PickFirstBest(moves[1..], scores[1..], best, bestScore)
  }

  /**
   * Nothing above the starting score keeps the starting choice; otherwise the pick is the
   * first move of largest score.
   */
  lemma {:induction false} PickFirstBestSpec(moves: seq<Move>, scores: seq<int>, best: Option<Move>, bestScore: int)
    requires |moves| == |scores|
    ensures (forall j :: 0 <= j < |scores| ==> scores[j] <= bestScore) ==> PickFirstBest(moves, scores, best, bestScore) == best
    ensures (exists j :: 0 <= j < |scores| && scores[j] > bestScore) ==>
      exists k :: FirstMaxAt(scores, k) && PickFirstBest(moves, scores, best, bestScore) == Some(moves[k])
  {
    if moves != [] {
      var rest := scores[1..];
      var (nextBest, nextScore) := if scores[0] > bestScore then (Some(moves[0]), scores[0]) else (best, bestScore);
      PickFirstBestSpec(moves[1..], rest, nextBest, nextScore);
      assert forall j :: 1 <= j < |scores| ==> scores[j] == rest[j - 1];
      if exists j :: 0 <= j < |rest| && rest[j] > nextScore {
        var k' :| FirstMaxAt(rest, k') && PickFirstBest(moves[1..], rest, nextBest, nextScore) == Some(moves[1..][k']);
        assert FirstMaxAt(scores, k' + 1);
      } else if scores[0] > bestScore {
        assert FirstMaxAt(scores, 0);
      }
    }
  }

  /** chooseMove's loop is the replacement rule over the trial values. */
  lemma {:induction false} ChooseFromPicks(cells: map<HexCoordinate, CellState>, size: nat, p: Player, moves: seq<Move>,
                                           best: Option<Move>, bestScore: int)
    ensures ChooseFrom(cells, size, p, moves, best, bestScore).0 ==
      PickFirstBest(moves, ProbeScores(cells, size, p, SearchDepth, moves), best, bestScore)
    decreases |moves|
  {
    if moves != [] {
      var (score, next) := Probe(cells, size, p, SearchDepth, moves[0]);
      var scores := ProbeScores(cells, size, p, SearchDepth, moves);
      assert scores[0] == score && scores[1..] == ProbeScores(next, size, p, SearchDepth, moves[1..]);
      if score > bestScore {
        ChooseFromPicks(next, size, p, moves[1..], Some(moves[0]), score);
      } else {
        ChooseFromPicks(next, size, p, moves[1..], best, bestScore);
      }
    }
  }

  // ---------------------------------------------------------------------------
  // What the search leaves on the board.
  // ---------------------------------------------------------------------------

  /** The cells the search leaves: the same keys, each cell as it was or EMPTY. */
  predicate Leaves(before: map<HexCoordinate, CellState>, after: map<HexCoordinate, CellState>) {
    && after.Keys == before.Keys
    && forall k :: k in before ==> after[k] == before[k] || after[k] == Empty
  }

  lemma LeavesTransitive(a: map<HexCoordinate, CellState>, b: map<HexCoordinate, CellState>, c: map<HexCoordinate, CellState>)
    requires Leaves(a, b) && Leaves(b, c)
    ensures Leaves(a, c)
  {
  }

  /** A node of the search keeps the keys and only ever clears cells. */
  lemma {:induction false} EvalLeaves(cells: map<HexCoordinate, CellState>, size: nat, p: Player, depth: nat)
    ensures Leaves(cells, Eval(cells, size, p, depth).1)
    decreases depth, 2
  {
    if !(depth == 0 || GameOver(cells, size)) {
      ValidMovesStored(cells, size, p);
      EvalMovesLeaves(cells, size, p, depth, ValidMoves(cells, size, p), MaxInt);
    }
  }

  lemma {:induction false} EvalMovesLeaves(cells: map<HexCoordinate, CellState>, size: nat, p: Player, depth: nat,
                                           moves: seq<Move>, minScore: int)
    requires depth > 0 && Stored(cells, moves)
    ensures Leaves(cells, EvalMoves(cells, size, p, depth, moves, minScore).1)
    decreases depth, 1, |moves|
  {
    if moves != [] {
      var (score, next) := Probe(cells, size, p, depth - 1, moves[0]);
      ProbeLeaves(cells, size, p, depth - 1, moves[0]);
      assert forall m :: m in moves[1..] ==> m in moves;
      EvalMovesLeaves(next, size, p, depth, moves[1..], Min(minScore, score));
      LeavesTransitive(cells, next, EvalMoves(next, size, p, depth, moves[1..], Min(minScore, score)).1);
    }
  }

  /** A trial on a stored cell leaves that cell EMPTY and otherwise only clears cells. */
  lemma {:induction false} ProbeLeaves(cells: map<HexCoordinate, CellState>, size: nat, p: Player, depth: nat, m: Move)
    requires At(m) in cells
    ensures Leaves(cells, Probe(cells, size, p, depth, m).1)
    ensures Probe(cells, size, p, depth, m).1[At(m)] == Empty
    decreases depth, 3
  {
    EvalLeaves(cells[At(m) := StateOf(p)], size, p, depth);
  }

  /**
   * After chooseMove the keys are unchanged, every cell is as it was or EMPTY, and every
   * move that was tried is EMPTY.
   */
  lemma {:induction false} ChooseFromLeaves(cells: map<HexCoordinate, CellState>, size: nat, p: Player, moves: seq<Move>,
                                            best: Option<Move>, bestScore: int)
    requires Stored(cells, moves)
    ensures Leaves(cells, ChooseFrom(cells, size, p, moves, best, bestScore).1)
    ensures forall m :: m in moves ==> ChooseFrom(cells, size, p, moves, best, bestScore).1[At(m)] == Empty
    decreases |moves|
  {
    if moves != [] {
      var (score, next) := Probe(cells, size, p, SearchDepth, moves[0]);
      ProbeLeaves(cells, size, p, SearchDepth, moves[0]);
      assert forall m :: m in moves[1..] ==> m in moves;
      var (nb, ns) := if score > bestScore then (Some(moves[0]), score) else (best, bestScore);
      ChooseFromLeaves(next, size, p, moves[1..], nb, ns);
      var final := ChooseFrom(next, size, p, moves[1..], nb, ns).1;
      LeavesTransitive(cells, next, final);
      assert forall m :: m in moves ==> m == moves[0] || m in moves[1..];
    }
  }

  // ---------------------------------------------------------------------------
  // Node values.
  // ---------------------------------------------------------------------------

  lemma ScoreAtMost(cells: map<HexCoordinate, CellState>, size: nat, p: Player)
    ensures ScoreOf(cells, size, p) <= size * size
  {
    ScanShape(size);
    CountIfAtMost(Scan(size), OwnKeep(cells, StateOf(p)));
  }

  /**
   * A leaf is worth its margin, at most size^2 either way, and leaves the board alone;
   * every node is worth at least -size^2.
   */
  lemma {:induction false} EvalBounds(cells: map<HexCoordinate, CellState>, size: nat, p: Player, depth: nat)
    ensures Eval(cells, size, p, depth).0 >= -(size * size)
    ensures depth == 0 || GameOver(cells, size) ==>
      Eval(cells, size, p, depth).1 == cells && -(size * size) <= Eval(cells, size, p, depth).0 <= size * size
    decreases depth, 2
  {
    ScoreAtMost(cells, size, p);
    ScoreAtMost(cells, size, Other(p));
    if !(depth == 0 || GameOver(cells, size)) {
      EvalMovesBounds(cells, size, p, depth, ValidMoves(cells, size, p), MaxInt);
    }
  }

  lemma {:induction false} EvalMovesBounds(cells: map<HexCoordinate, CellState>, size: nat, p: Player, depth: nat,
                                           moves: seq<Move>, minScore: int)
    requires depth > 0 && minScore >= -(size * size)
    ensures EvalMoves(cells, size, p, depth, moves, minScore).0 >= -(size * size)
    decreases depth, 1, |moves|
  {
    if moves != [] {
      var (score, next) := Probe(cells, size, p, depth - 1, moves[0]);
      EvalBounds(cells[At(moves[0]) := StateOf(p)], size, p, depth - 1);
      EvalMovesBounds(next, size, p, depth, moves[1..], Min(minScore, score));
    }
  }

  /**
   * An inner node is the minimum of the running value and its children's values: no
   * larger than any of them, and equal to one of them. With no moves it is MAX_VALUE.
   */
  lemma {:induction false} EvalMovesIsMin(cells: map<HexCoordinate, CellState>, size: nat, p: Player, depth: nat,
                                          moves: seq<Move>, minScore: int)
    requires depth > 0
    ensures var v := EvalMoves(cells, size, p, depth, moves, minScore).0;
      var scores := ProbeScores(cells, size, p, depth - 1, moves);
      && v <= minScore
      && (forall j :: 0 <= j < |scores| ==> v <= scores[j])
      && (v == minScore || exists j :: 0 <= j < |scores| && v == scores[j])
    decreases |moves|
  {
    if moves != [] {
      var (score, next) := Probe(cells, size, p, depth - 1, moves[0]);
      var scores := ProbeScores(cells, size, p, depth - 1, moves);
      var rest := ProbeScores(next, size, p, depth - 1, moves[1..]);
      assert scores == [score] + rest;
      assert forall j :: 1 <= j < |scores| ==> scores[j] == rest[j - 1];
      EvalMovesIsMin(next, size, p, depth, moves[1..], Min(minScore, score));
      var v := EvalMoves(cells, size, p, depth, moves, minScore).0;
      if v != minScore && v != score {
        var j :| 0 <= j < |rest| && v == rest[j];
        assert v == scores[j + 1];
      }
      if v == score {
        assert v == scores[0];
      }
    }
  }

  // ---------------------------------------------------------------------------
  // The corrected search: each trial puts back the state the cell had.
  // ---------------------------------------------------------------------------

  /** evaluateOpponentMove with every trial undone by restoring the cell: a pure minimum over the children. */
  function EvalRestoring(cells: map<HexCoordinate, CellState>, size: nat, p: Player, depth: nat): int
    decreases depth, 1
  {
    if depth == 0 || GameOver(cells, size) then Margin(cells, size, p)
    else MinChild(cells, size, p, depth, ValidMoves(cells, size, p), MaxInt)
  }

  /** The loop over the moves still to try, with the running minimum; every child is on the node's own board. */
  function MinChild(cells: map<HexCoordinate, CellState>, size: nat, p: Player, depth: nat,
                    moves: seq<Move>, minScore: int): int
    requires depth > 0
    decreases depth, 0, |moves|
  {
    if moves == [] then minScore
    else MinChild(cells, size, p, depth, moves[1..], Min(minScore, Child(cells, size, p, depth - 1, moves[0])))
  }

  /** The value, at `depth`, of the board reached by placing p's piece on m. */
  function Child(cells: map<HexCoordinate, CellState>, size: nat, p: Player, depth: nat, m: Move): int
    decreases depth, 2
  {
    EvalRestoring(cells[At(m) := StateOf(p)], size, p, depth)
  }

  /** The value of each top-level trial of the corrected search, all on the same board. */
  function RestoredScores(cells: map<HexCoordinate, CellState>, size: nat, p: Player, moves: seq<Move>): seq<int> {
    seq(|moves|, i requires 0 <= i < |moves| => Child(cells, size, p, SearchDepth, moves[i]))
  }

  /** chooseMove with restoring trials. */
  function MinimaxRestoring(cells: map<HexCoordinate, CellState>, size: nat, p: Player): Option<Move> {
    var moves := ValidMoves(cells, size, p);
    PickFirstBest(moves, RestoredScores(cells, size, p, moves), None, MinInt)
  }

  /** Every node of the corrected search is worth at least -size^2. */
  lemma {:induction false} EvalRestoringBounds(cells: map<HexCoordinate, CellState>, size: nat, p: Player, depth: nat)
    ensures EvalRestoring(cells, size, p, depth) >= -(size * size)
    decreases depth, 1
  {
    ScoreAtMost(cells, size, p);
    ScoreAtMost(cells, size, Other(p));
    if !(depth == 0 || GameOver(cells, size)) {
      MinChildBounds(cells, size, p, depth, ValidMoves(cells, size, p), MaxInt);
    }
  }

  lemma {:induction false} MinChildBounds(cells: map<HexCoordinate, CellState>, size: nat, p: Player, depth: nat,
                                          moves: seq<Move>, minScore: int)
    requires depth > 0 && minScore >= -(size * size)
    ensures MinChild(cells, size, p, depth, moves, minScore) >= -(size * size)
    decreases depth, 0, |moves|
  {
    if moves != [] {
      EvalRestoringBounds(cells[At(moves[0]) := StateOf(p)], size, p, depth - 1);
      MinChildBounds(cells, size, p, depth, moves[1..], Min(minScore, Child(cells, size, p, depth - 1, moves[0])));
    }
  }

  /**
   * An inner node of the corrected search is no larger than the running value or any
   * child, and equals one of them.
   */
  lemma {:induction false} MinChildIsMin(cells: map<HexCoordinate, CellState>, size: nat, p: Player, depth: nat,
                                         moves: seq<Move>, minScore: int)
    requires depth > 0
    ensures var v := MinChild(cells, size, p, depth, moves, minScore);
      && v <= minScore
      && (forall m :: m in moves ==> v <= Child(cells, size, p, depth - 1, m))
      && (v == minScore || exists m :: m in moves && v == Child(cells, size, p, depth - 1, m))
    decreases |moves|
  {
    if moves != [] {
      var c0 := Child(cells, size, p, depth - 1, moves[0]);
      MinChildIsMin(cells, size, p, depth, moves[1..], Min(minScore, c0));
      assert forall m :: m in moves ==> m == moves[0] || m in moves[1..];
      assert forall m :: m in moves[1..] ==> m in moves;
      if MinChild(cells, size, p, depth, moves, minScore) == c0 {
        assert moves[0] in moves;
      }
    }
  }

  // ---------------------------------------------------------------------------
  // What chooseMove promises, as written and corrected.
  // ---------------------------------------------------------------------------

  /**
   * On a board of at most 46340 rows every trial value exceeds MIN_VALUE, so chooseMove
   * returns null exactly when there is no valid move, and otherwise the first valid move
   * of best trial value; the board it leaves has the same keys, each cell as it was or
   * EMPTY, and every valid move EMPTY.
   */
  lemma MinimaxSpec(cells: map<HexCoordinate, CellState>, size: nat, p: Player)
    requires size * size < 0x8000_0000
    ensures var moves := ValidMoves(cells, size, p);
      var (choice, after) := Minimax(cells, size, p);
      && (choice.None? <==> moves == [])
      && (choice.Some? ==> exists k :: FirstMaxAt(ProbeScores(cells, size, p, SearchDepth, moves), k) && choice == Some(moves[k]))
      && Leaves(cells, after)
      && (forall m :: m in moves ==> At(m) in after && after[At(m)] == Empty)
  {
    var moves := ValidMoves(cells, size, p);
    var scores := ProbeScores(cells, size, p, SearchDepth, moves);
    ValidMovesStored(cells, size, p);
    ChooseFromLeaves(cells, size, p, moves, None, MinInt);
    ChooseFromPicks(cells, size, p, moves, None, MinInt);
    PickFirstBestSpec(moves, scores, None, MinInt);
    if moves != [] {
      ProbeAboveMin(cells, size, p, moves[0]);
      assert scores[0] > MinInt;
    }
  }

  /** A top-level trial value exceeds MIN_VALUE. */
  lemma ProbeAboveMin(cells: map<HexCoordinate, CellState>, size: nat, p: Player, m: Move)
    requires size * size < 0x8000_0000
    ensures Probe(cells, size, p, SearchDepth, m).0 > MinInt
  {
    EvalBounds(cells[At(m) := StateOf(p)], size, p, SearchDepth);
  }

  /**
   * The corrected chooseMove returns null exactly when there is no valid move, and
   * otherwise the first valid move of best trial value.
   */
  lemma MinimaxRestoringSpec(cells: map<HexCoordinate, CellState>, size: nat, p: Player)
    requires size * size < 0x8000_0000
    ensures var moves := ValidMoves(cells, size, p);
      var choice := MinimaxRestoring(cells, size, p);
      && (choice.None? <==> moves == [])
      && (choice.Some? ==> exists k :: FirstMaxAt(RestoredScores(cells, size, p, moves), k) && choice == Some(moves[k]))
  {
    var moves := ValidMoves(cells, size, p);
    var scores := RestoredScores(cells, size, p, moves);
    PickFirstBestSpec(moves, scores, None, MinInt);
    if moves != [] {
      EvalRestoringBounds(cells[At(moves[0]) := StateOf(p)], size, p, SearchDepth);
      assert scores[0] > MinInt;
    }
  }

  /**
   * The search as written wipes pieces off the board: with X on (0,0) and (1,0), the
   * occupied cell (0,0) lies in the "valid" triangle and touches an own piece, so it is a
   * valid move for Black, and the trial's `move(0, 0, EMPTY)` leaves it EMPTY.
   */
  lemma SearchErasesPiece(cells: map<HexCoordinate, CellState>, size: nat)
    requires size >= 2
    requires HexCoordinate(0, 0) in cells && HexCoordinate(1, 0) in cells
    requires cells[HexCoordinate(0, 0)] == X && cells[HexCoordinate(1, 0)] == X
    ensures HexCoordinate(0, 0) in Minimax(cells, size, Black).1 && Minimax(cells, size, Black).1[HexCoordinate(0, 0)] == Empty
    ensures Minimax(cells, size, Black).1 != cells
  {
    var c := HexCoordinate(0, 0);
    var m := Move(0, 0);
    ValidMoveSpec(cells, size, 0, 0, Black);
    assert HexDistance(c, HexCoordinate(1, 0)) == 1;
    assert IsValidCell(size, 0, 0);
    ValidMovesSpec(cells, size, Black);
    assert m in ValidMoves(cells, size, Black);
    ValidMovesStored(cells, size, Black);
    ChooseFromLeaves(cells, size, Black, ValidMoves(cells, size, Black), None, MinInt);
  }

  // ---------------------------------------------------------------------------
  // The strategy on the live game.
  // ---------------------------------------------------------------------------

  /** The leaf value of evaluateOpponentMove: score of the player to move minus the opponent's. */
  method Leaf(game: ReversiGame) returns (score: int)
    requires game.Valid()
    ensures score == Margin(game.board.cells, game.board.size, game.currentPlayer)
  {
    var mine := game.Score(game.currentPlayer);
    var theirs := game.Score(game.GetOpponent());
    score := mine as int - theirs as int;
  }

  /**
   * evaluateOpponentMove as written: the value and the board it leaves are those of Eval.
   * The player to move is never switched.
   */
  method EvaluateOpponentMove(game: ReversiGame, depth: nat) returns (score: int)
    requires game.Valid()
    modifies game.board
    ensures game.Valid()
    ensures (score, game.board.cells) == Eval(old(game.board.cells), game.board.size, game.currentPlayer, depth)
    decreases depth, 2
  {
    var stop := depth == 0;
    if !stop {
      stop := game.IsGameOver();
    }
    if stop {
      score := Leaf(game);
      return;
    }
    var opponentMoves := game.GetValidMoves();
    ValidMovesStored(game.board.cells, game.board.size, game.currentPlayer);
    score := MinOverMoves(game, depth, opponentMoves);
  }

  /** The loop of evaluateOpponentMove: the running minimum and the board are those of EvalMoves. */
  method MinOverMoves(game: ReversiGame, depth: nat, opponentMoves: seq<Move>) returns (minScore: int)
    requires game.Valid() && depth > 0 && Stored(game.board.cells, opponentMoves)
    modifies game.board
    ensures game.Valid()
    ensures (minScore, game.board.cells) == EvalMoves(old(game.board.cells), game.board.size, game.currentPlayer, depth, opponentMoves, MaxInt)
    decreases depth, 1
  {
    ghost var start := game.board.cells;
    ghost var size: nat := game.board.size;
    ghost var p := game.currentPlayer;
    minScore := MaxInt;
    for i := 0 to |opponentMoves|
      invariant game.Valid() && game.board.cells.Keys == start.Keys
      invariant EvalMoves(start, size, p, depth, opponentMoves, MaxInt) ==
        EvalMoves(game.board.cells, size, p, depth, opponentMoves[i..], minScore)
    {
      var m := opponentMoves[i];
      assert m in opponentMoves;
      assert opponentMoves[i..][0] == m && opponentMoves[i..][1..] == opponentMoves[i + 1..];
      var s := TryMove(game, m, depth - 1);
      minScore := Min(minScore, s);
    }
  }

  /** One iteration of either loop: place the mover's piece on m, evaluate, set the cell EMPTY. */
  method TryMove(game: ReversiGame, m: Move, depth: nat) returns (score: int)
    requires game.Valid() && At(m) in game.board.cells
    modifies game.board
    ensures game.Valid()
    ensures (score, game.board.cells) == Probe(old(game.board.cells), game.board.size, game.currentPlayer, depth, m)
    decreases depth, 3
  {
    var currentPlayerState := StateOf(game.currentPlayer);
    game.board.Move(m.q, m.r, currentPlayerState);
    score := EvaluateOpponentMove(game, depth);
    game.board.Move(m.q, m.r, Empty);
  }

  /** chooseMove as written: the choice and the board it leaves are those of Minimax. */
  method ChooseMove(game: ReversiGame) returns (best: Option<Move>)
    requires game.Valid()
    modifies game.board
    ensures game.Valid()
    ensures (best, game.board.cells) == Minimax(old(game.board.cells), game.board.size, game.currentPlayer)
  {
    var validMoves := game.GetValidMoves();
    ghost var start := game.board.cells;
    ghost var size: nat := game.board.size;
    ghost var p := game.currentPlayer;
    ValidMovesStored(start, size, p);
    best := None;
    var bestScore := MinInt;
    for i := 0 to |validMoves|
      invariant game.Valid() && game.board.cells.Keys == start.Keys
      invariant Minimax(start, size, p) == ChooseFrom(game.board.cells, size, p, validMoves[i..], best, bestScore)
    {
      var m := validMoves[i];
      assert m in validMoves;
      assert validMoves[i..][0] == m && validMoves[i..][1..] == validMoves[i + 1..];
      var score := TryMove(game, m, SearchDepth);
      if score > bestScore {
        bestScore := score;
        best := Some(m);
      }
    }
  }

  /** evaluateOpponentMove with each trial undone by restoring the cell's state: the board is unchanged. */
  method EvaluateRestoring(game: ReversiGame, depth: nat) returns (score: int)
    requires game.Valid()
    modifies game.board
    ensures game.Valid() && game.board.cells == old(game.board.cells)
    ensures score == EvalRestoring(old(game.board.cells), game.board.size, game.currentPlayer, depth)
    decreases depth, 2
  {
    var stop := depth == 0;
    if !stop {
      stop := game.IsGameOver();
    }
    if stop {
      score := Leaf(game);
      return;
    }
    var opponentMoves := game.GetValidMoves();
    ValidMovesStored(game.board.cells, game.board.size, game.currentPlayer);
    score := MinOverMovesRestoring(game, depth, opponentMoves);
  }

  /** The loop of the corrected evaluateOpponentMove: the board is unchanged and the minimum is MinChild's. */
  method MinOverMovesRestoring(game: ReversiGame, depth: nat, opponentMoves: seq<Move>) returns (minScore: int)
    requires game.Valid() && depth > 0 && Stored(game.board.cells, opponentMoves)
    modifies game.board
    ensures game.board.cells == old(game.board.cells)
    ensures minScore == MinChild(game.board.cells, game.board.size, game.currentPlayer, depth, opponentMoves, MaxInt)
    decreases depth, 1
  {
    ghost var start := game.board.cells;
    ghost var size: nat := game.board.size;
    ghost var p := game.currentPlayer;
    minScore := MaxInt;
    for i := 0 to |opponentMoves|
      invariant game.board.cells == start
      invariant MinChild(start, size, p, depth, opponentMoves, MaxInt) == MinChild(start, size, p, depth, opponentMoves[i..], minScore)
    {
      var m := opponentMoves[i];
      assert m in opponentMoves;
      assert opponentMoves[i..][0] == m && opponentMoves[i..][1..] == opponentMoves[i + 1..];
      var s := TryMoveRestoring(game, m, depth - 1);
      minScore := Min(minScore, s);
    }
  }

  /** A restoring trial: place the mover's piece on m, evaluate one level down, put back the cell's state. */
  method TryMoveRestoring(game: ReversiGame, m: Move, depth: nat) returns (score: int)
    requires game.Valid() && At(m) in game.board.cells
    modifies game.board
    ensures game.board.cells == old(game.board.cells)
    ensures score == Child(game.board.cells, game.board.size, game.currentPlayer, depth, m)
    decreases depth, 3
  {
    ghost var start := game.board.cells;
    var previous := game.board.cells[At(m)];
    game.board.Move(m.q, m.r, StateOf(game.currentPlayer));
    score := EvaluateRestoring(game, depth);
    game.board.Move(m.q, m.r, previous);
    PutBack(start, At(m), StateOf(game.currentPlayer));
  }

  /** Writing a cell and then writing back its old state gives the map back. */
  lemma PutBack(cells: map<HexCoordinate, CellState>, c: HexCoordinate, s: CellState)
    requires c in cells
    ensures cells[c := s][c := cells[c]] == cells
  {
  }

  /** chooseMove with restoring trials: the board is unchanged and the choice is MinimaxRestoring's. */
  method ChooseMoveRestoring(game: ReversiGame) returns (best: Option<Move>)
    requires game.Valid()
    modifies game.board
    ensures game.board.cells == old(game.board.cells)
    ensures best == MinimaxRestoring(game.board.cells, game.board.size, game.currentPlayer)
  {
    var validMoves := game.GetValidMoves();
    ghost var start := game.board.cells;
    ghost var size: nat := game.board.size;
    ghost var p := game.currentPlayer;
    ghost var scores := RestoredScores(start, size, p, validMoves);
    ValidMovesStored(start, size, p);
    best := None;
    var bestScore := MinInt;
    for i := 0 to |validMoves|
      invariant game.board.cells == start
      invariant MinimaxRestoring(start, size, p) == PickFirstBest(validMoves[i..], scores[i..], best, bestScore)
    {
      var m := validMoves[i];
      assert m in validMoves;
      assert validMoves[i..][0] == m && validMoves[i..][1..] == validMoves[i + 1..];
      assert scores[i..][0] == scores[i] && scores[i..][1..] == scores[i + 1..];
      var score := TryMoveRestoring(game, m, SearchDepth);
      if score > bestScore {
        bestScore := score;
        best := Some(m);
      }
    }
  }
}
