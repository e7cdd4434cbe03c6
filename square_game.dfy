/** SquareReversiGame: an 8 x 8 SquareBoard plus the player to move. */
module SquareGame {
  import opened Outcomes
  import opened CellStates
  import opened GamePlayers
  import opened HexCoordinates
  import opened Moves
  import opened Cells
  import opened Grid
  import opened Flips
  import opened SquareBoards
  import opened SquareRules
  import opened AbstractModels

  /** The loop of hasValidMoves: does any of the listed cells hold EMPTY? */
  method SomeEmpty(cells: map<HexCoordinate, CellState>, candidates: seq<HexCoordinate>) returns (b: bool)
    requires forall c :: c in candidates ==> c in cells
    ensures b <==> exists i :: 0 <= i < |candidates| && cells[candidates[i]] == Empty
  {
    for i := 0 to |candidates|
      invariant forall j :: 0 <= j < i ==> cells[candidates[j]] != Empty
    {
      if cells[candidates[i]] == Empty {
        return true;
      }
    }
    return false;
  }

  class SquareReversiGame {
    const board: SquareBoard
    var currentPlayer: Player

    ghost predicate Valid()
      reads this, board
    {
      board.Valid() && board.size == 8
    }

    constructor()
      ensures Valid() && fresh(board)
      ensures board.cells == SquareStart(8) && currentPlayer == Black
    {
      board := new SquareBoard(8);
      currentPlayer := Black;
    }

    /** isValidMove. An out-of-bounds coordinate has no cell, so it must be inside the board. */
    method IsValidMove(q: int, r: int, player: Player) returns (valid: bool)
      requires HexCoordinate(q, r) in board.cells
      ensures valid == ValidMove(board.cells, board.size, q, r, player)
    {
      var c := HexCoordinate(q, r);
      if !InSquare(board.size, q, r) && board.cells[c] != Empty {
        return false;
      }
      var neighbors := NeighborStates(board.cells, c);
      valid := AnyHolds(neighbors, StateOf(player));
    }

    method GetValidMoves() returns (moves: seq<Move>)
      requires Valid()
      ensures moves == ValidMoves(board.cells, board.size, currentPlayer)
    {
      moves := ScanMoves(board.size, ValidKeep(board.cells, board.size, currentPlayer));
    }

    function GetOpponent(): (o: Player)
      reads this
      ensures o != currentPlayer && o == Other(currentPlayer)
    {
      if currentPlayer == Black then White else Black
    }

    method SetCurrentPlayer(player: Player) returns (p: Player)
      modifies this
      ensures currentPlayer == player && p == player
    {
      currentPlayer := player;
      p := player;
    }

    method HasValidMovesForPlayer(player: Player) returns (b: bool)
      requires Valid()
      ensures b == HasMoveFor(board.cells, board.size, player)
    {
      var candidates := board.GetValidMoves();
      for i := 0 to |candidates|
        invariant forall j :: 0 <= j < i ==> !ValidMove(board.cells, board.size, candidates[j].q, candidates[j].r, player)
      {
        var c := candidates[i];
        if board.cells[c] == Empty {
          var valid := IsValidMove(c.q, c.r, player);
          if valid {
            return true;
          }
        }
      }
      return false;
    }

    /** hasValidMoves: some candidate of board.getValidMoves is EMPTY, i.e. the list is not empty. */
    method HasValidMoves() returns (b: bool)
      requires Valid()
      ensures b <==> BoardMoves(board.cells, board.size) != {}
    {
      var candidates := board.GetValidMoves();
      b := SomeEmpty(board.cells, candidates);
      if b {
        var i :| 0 <= i < |candidates| && board.cells[candidates[i]] == Empty;
        assert candidates[i] in candidates;
      }
    }

    method IsGameOver() returns (over: bool)
      requires Valid()
      ensures over == GameOver(board.cells, board.size)
    {
      var candidates := board.GetValidMoves();
      var has := HasValidMoves();
      if candidates != [] {
        assert candidates[0] in candidates;
      }
      over := candidates == [] || !has;
    }

    method Score(player: Player) returns (score: nat)
      requires Valid()
      ensures score == ScoreOf(board.cells, board.size, player)
    {
      var playerDisc := if player == Black then X else O;
      score := CountWhere(board.size, OwnKeep(board.cells, playerDisc));
    }

    /** countPieces filters board.getValidMoves, whose cells are all EMPTY: it is always 0. */
    method CountPieces(player: Player) returns (count: nat)
      requires Valid()
      ensures count == 0
    {
      var candidates := board.GetValidMoves();
      var matching := 0;
      for i := 0 to |candidates|
        invariant matching == 0
      {
        if board.cells[candidates[i]] == StateOf(player) {
          matching := matching + 1;
        }
      }
      count := matching;
    }

    /** getWinner: IllegalState while the game runs, and then always null (None). */
    method GetWinner() returns (winner: Result<Option<Player>>)
      requires Valid()
      ensures winner == if GameOver(board.cells, board.size) then Success(None) else Failure(IllegalState)
    {
      var over := IsGameOver();
      if !over {
        return Failure(IllegalState);
      }
      var blackCount := CountPieces(Black);
      var whiteCount := CountPieces(White);
      winner := Success(DecideWinner(blackCount, whiteCount));
    }

    method SwitchPlayer()
      modifies this
      ensures currentPlayer == Other(old(currentPlayer))
    {
      if currentPlayer == Black {
        currentPlayer := White;
      } else {
        currentPlayer := Black;
      }
    }

    method StartGame()
      modifies this
      ensures currentPlayer == Black
    {
      currentPlayer := Black;
    }

    /** pass: only the turn changes. */
    method Pass()
      modifies this
      ensures currentPlayer == Other(old(currentPlayer))
    {
      SwitchPlayer();
    }

    /** flipPiecesInDirection: walk the opponent run, then flip it if a piece of `me` closes it. */
    method FlipPiecesInDirection(q: int, r: int, dq: int, dr: int, me: CellState, opp: CellState)
      requires IsDirection(dq, dr) && opp == OpponentState(me)
      modifies board
      ensures board.cells == FlipDirection(old(board.cells), board.size, q, r, dq, dr, me)
    {
      var neighbors, next := CollectRun(board.cells, board.size, q, r, dq, dr, opp);
      RunSpec(board.cells, board.size, q, r, dq, dr, opp);
      if InSquare(board.size, next.q, next.r) && next in board.cells && board.cells[next] == me {
        FlipRun(neighbors, me);
      }
    }

    /** The for-each over a bracketed run: each listed cell is moved to `me`, in list order. */
    method FlipRun(run: seq<HexCoordinate>, me: CellState)
      requires forall i :: 0 <= i < |run| ==> run[i] in board.cells
      modifies board
      ensures board.cells == SetAll(old(board.cells), run, me)
    {
      ghost var before := board.cells;
      SetAllNone(before, me);
      for i := 0 to |run|
        invariant board.cells == SetAll(before, run[..i], me)
      {
        SetAllSnoc(before, run[..i], run[i], me);
        assert run[..i + 1] == run[..i] + [run[i]];
        board.Move(run[i].q, run[i].r, me);
      }
      assert run[..|run|] == run;
    }

    method FlipOpponentsPieces(q: int, r: int)
      requires HexCoordinate(q, r) in board.cells
      modifies board
      ensures board.cells == FlipAll(old(board.cells), board.size, q, r, old(board.cells)[HexCoordinate(q, r)])
    {
      var currentPlayerState := board.cells[HexCoordinate(q, r)];
      var opponentState := if currentPlayerState == X then O else X;
      for i := 0 to 8
        invariant board.cells == FlipDirections(old(board.cells), board.size, q, r, currentPlayerState, i)
      {
        DirectionsAreDirections(i);
        FlipPiecesInDirection(q, r, DirQ[i], DirR[i], currentPlayerState, opponentState);
      }
    }

    /** play: as on the hexagonal game, including the AI seat's reply when White is to move. */
    method Play(q: int, r: int, aiPick: nat) returns (o: Outcome)
      requires Valid() && HexCoordinate(q, r) in board.cells
      modifies this, board
      ensures Valid()
      ensures !ValidMove(old(board.cells), board.size, q, r, old(currentPlayer)) ==>
        o == Fail(IllegalArgument) && board.cells == old(board.cells) && currentPlayer == old(currentPlayer)
      ensures ValidMove(old(board.cells), board.size, q, r, old(currentPlayer)) ==>
        o == Outcome.Pass && (board.cells, currentPlayer) == PlayResult(old(board.cells), board.size, old(currentPlayer), q, r, aiPick)
      decreases if currentPlayer == White then 0 else 2
    {
      var valid := IsValidMove(q, r, currentPlayer);
      if !valid {
        return Fail(IllegalArgument);
      }
      PlaceAndFlipSpec(board.cells, board.size, q, r, StateOf(currentPlayer));
      board.Move(q, r, StateOf(currentPlayer));
      FlipOpponentsPieces(q, r);
      SwitchPlayer();
      if currentPlayer == White {
        MakeAiMove(aiPick);
        SwitchPlayer();
      }
      o := Outcome.Pass;
    }

    /** The AI seat (an AIPlayer without strategy). */
    method MakeAiMove(aiPick: nat)
      requires Valid()
      modifies this, board
      ensures Valid()
      ensures old(currentPlayer) == White && ValidMoves(old(board.cells), board.size, White) != [] ==>
        board.cells == AiTurn(old(board.cells), board.size, aiPick) && currentPlayer == Black
      ensures !(old(currentPlayer) == White && ValidMoves(old(board.cells), board.size, White) != []) ==>
        board.cells == old(board.cells) && currentPlayer == old(currentPlayer)
      decreases 1
    {
      var validMoves := GetValidMoves();
      if validMoves != [] && currentPlayer == White {
        var aiMove := validMoves[aiPick % |validMoves|];
        ValidMovesSpec(board.cells, board.size, White);
        assert aiMove in validMoves;
        var o := Play(aiMove.q, aiMove.r, aiPick);
      }
    }
  }
}
