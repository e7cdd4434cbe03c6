/** ReversiGame: the hexagonal game, a size-6 BoardImpl plus the player to move. */
module HexGame {
  import opened Outcomes
  import opened CellStates
  import opened GamePlayers
  import opened HexCoordinates
  import opened Moves
  import opened Cells
  import opened Grid
  import opened Flips
  import opened HexBoard
  import opened HexRules
  import opened AbstractModels

  class ReversiGame {
    const board: BoardImpl
    var currentPlayer: Player

    /** The board keeps its shape; its size, 6, is fixed by the constructor and never changes. */
    ghost predicate Valid()
      reads this, board
    {
      board.Valid()
    }

    constructor()
      ensures Valid() && fresh(board)
      ensures board.size == 6 && board.cells == StartCells(6) && currentPlayer == Black
    {
      board := new BoardImpl(6);
      currentPlayer := Black;
    }

    /** The whole of [0,size)^2 is stored on a valid board. */
    lemma SquareIsStored()
      requires Valid()
      ensures forall c: HexCoordinate :: InSquare(board.size, c.q, c.r) ==> c in board.cells
    {
    }

    /** isValidMove. The cell must exist. */
    method IsValidMove(q: int, r: int, player: Player) returns (valid: bool)
      requires HexCoordinate(q, r) in board.cells
      ensures valid == ValidMove(board.cells, board.size, q, r, player)
    {
      var c := HexCoordinate(q, r);
      if !IsValidCell(board.size, q, r) && board.cells[c] != Empty {
        return false;
      }
      var neighbors := NeighborStates(board.cells, c);
      valid := AnyHolds(neighbors, StateOf(player));
    }

    /** getValidMoves for the player to move. */
    method GetValidMoves() returns (moves: seq<Move>)
      requires Valid()
      ensures moves == ValidMoves(board.cells, board.size, currentPlayer)
    {
      moves := ScanMoves(board.size, ValidKeep(board.cells, board.size, currentPlayer));
    }

    function GetOpponent(): (o: Player)
      reads this
      ensures o != currentPlayer && o == Other(currentPlayer)
    {
      if currentPlayer == Black then White else Black
    }

    method SetCurrentPlayer(player: Player) returns (p: Player)
      modifies this
      ensures currentPlayer == player && p == player
    {
      currentPlayer := player;
      p := player;
    }

    /**
     * The loop hasValidMovesForPlayer and hasValidMoves share: whether some EMPTY
     * candidate passes isValidMove for `player`. `legal` is isValidMove on this board.
     */
    method SomeLegalCandidate(candidates: seq<HexCoordinate>, player: Player, ghost legal: HexCoordinate -> bool)
      returns (found: bool)
      requires forall i :: 0 <= i < |candidates| ==> candidates[i] in board.cells
      requires forall c {:trigger legal(c)} :: c in board.cells ==> legal(c) == ValidMove(board.cells, board.size, c.q, c.r, player)
      ensures found <==> exists i :: 0 <= i < |candidates| && board.cells[candidates[i]] == Empty && legal(candidates[i])
    {
      for i := 0 to |candidates|
        invariant forall j :: 0 <= j < i ==> !(board.cells[candidates[j]] == Empty && legal(candidates[j]))
      {
        var c := candidates[i];
        if board.cells[c] == Empty {
          var valid := IsValidMove(c.q, c.r, player);
          if valid {
            return true;
          }
        }
      }
      return false;
    }

    /** hasValidMovesForPlayer: false as soon as an EMPTY board candidate is legal, so the answer is inverted. */
    method HasValidMovesForPlayer(player: Player) returns (b: bool)
      requires Valid()
      ensures b == !HasMoveFor(board.cells, board.size, player)
    {
      var candidates := board.GetValidMoves();
      var found := SomeLegalCandidate(candidates, player, ValidKeep(board.cells, board.size, player));
      CandidatesDecideMove(board.cells, board.size, player, candidates);
      return !found;
    }

    /** hasValidMoves. */
    method HasValidMoves(player: Player) returns (b: bool)
      requires Valid()
      ensures b == HasMoveFor(board.cells, board.size, player)
    {
      var candidates := board.GetValidMoves();
      b := SomeLegalCandidate(candidates, player, ValidKeep(board.cells, board.size, player));
      CandidatesDecideMove(board.cells, board.size, player, candidates);
    }

    method IsGameOver() returns (over: bool)
      requires Valid()
      ensures over == GameOver(board.cells, board.size)
    {
      var black := HasValidMoves(Black);
      var white := HasValidMoves(White);
      var full := board.IsFull();
      over := (!black && !white) || full;
    }

    /** score(p), a counter over [0,size)^2. */
    method Score(player: Player) returns (score: nat)
      requires Valid()
      ensures score == ScoreOf(board.cells, board.size, player)
    {
      var playerDisc := if player == Black then X else O;
      score := CountWhere(board.size, OwnKeep(board.cells, playerDisc));
    }

    /** countPieces filters board.getValidMoves, whose cells are all EMPTY: it is always 0. */
    method CountPieces(player: Player) returns (count: nat)
      requires Valid()
      ensures count == 0
    {
      var candidates := board.GetValidMoves();
      var matching := 0;
      for i := 0 to |candidates|
        invariant matching == 0
      {
        if board.cells[candidates[i]] == StateOf(player) {
          matching := matching + 1;
        }
      }
      count := matching;
    }

    /** getWinner: IllegalState while the game runs, and then always null (None). */
    method GetWinner() returns (winner: Result<Option<Player>>)
      requires Valid()
      ensures winner == if GameOver(board.cells, board.size) then Success(None) else Failure(IllegalState)
    {
      var over := IsGameOver();
      if !over {
        return Failure(IllegalState);
      }
      var blackCount := CountPieces(Black);
      var whiteCount := CountPieces(White);
      winner := Success(DecideWinner(blackCount, whiteCount));
    }

    method ChangePlayer()
      modifies this
      ensures currentPlayer == Other(old(currentPlayer))
    {
      currentPlayer := if currentPlayer == Black then White else Black;
    }

    method SwitchPlayer()
      modifies this
      ensures currentPlayer == Other(old(currentPlayer))
    {
      ChangePlayer();
    }

    method StartGame()
      modifies this
      ensures currentPlayer == Black
    {
      currentPlayer := Black;
    }

    /** getFlipDirection: walk the opponent run, then flip it if a piece of `me` closes it. */
    method GetFlipDirection(q: int, r: int, dq: int, dr: int, me: CellState, opp: CellState)
      requires IsDirection(dq, dr) && opp == OpponentState(me)
      modifies board
      ensures board.cells == FlipDirection(old(board.cells), board.size, q, r, dq, dr, me)
    {
      var neighbors, next := CollectRun(board.cells, board.size, q, r, dq, dr, opp);
      RunSpec(board.cells, board.size, q, r, dq, dr, opp);
      if InSquare(board.size, next.q, next.r) && next in board.cells && board.cells[next] == me {
        FlipRun(neighbors, me);
      }
    }

    /** The for-each over a bracketed run: each listed cell is moved to `me`, in list order. */
    method FlipRun(run: seq<HexCoordinate>, me: CellState)
      requires forall i :: 0 <= i < |run| ==> run[i] in board.cells
      modifies board
      ensures board.cells == SetAll(old(board.cells), run, me)
    {
      ghost var before := board.cells;
      SetAllNone(before, me);
      for i := 0 to |run|
        invariant board.cells == SetAll(before, run[..i], me)
      {
        SetAllSnoc(before, run[..i], run[i], me);
        assert run[..i + 1] == run[..i] + [run[i]];
        board.Move(run[i].q, run[i].r, me);
      }
      assert run[..|run|] == run;
    }

    /** flipOppenentsPieces: the eight directions in order, for the colour now at (q, r). */
    method FlipOpponentsPieces(q: int, r: int)
      requires HexCoordinate(q, r) in board.cells
      modifies board
      ensures board.cells == FlipAll(old(board.cells), board.size, q, r, old(board.cells)[HexCoordinate(q, r)])
    {
      var currentPlayerState := board.cells[HexCoordinate(q, r)];
      var opponentState := if currentPlayerState == X then O else X;
      for i := 0 to 8
        invariant board.cells == FlipDirections(old(board.cells), board.size, q, r, currentPlayerState, i)
      {
        DirectionsAreDirections(i);
        GetFlipDirection(q, r, DirQ[i], DirR[i], currentPlayerState, opponentState);
      }
    }

    /**
     * play. An illegal move throws and changes nothing. Otherwise the piece is placed,
     * the capture runs, the turn passes, and if White is now to move the AI seat
     * replies and the turn passes once more.
     */
    method Play(q: int, r: int, aiPick: nat) returns (o: Outcome)
      requires Valid() && HexCoordinate(q, r) in board.cells
      modifies this, board
      ensures Valid()
      ensures !ValidMove(old(board.cells), board.size, q, r, old(currentPlayer)) ==>
        o == Fail(IllegalArgument) && board.cells == old(board.cells) && currentPlayer == old(currentPlayer)
      ensures ValidMove(old(board.cells), board.size, q, r, old(currentPlayer)) ==>
        o == Outcome.Pass && (board.cells, currentPlayer) == PlayResult(old(board.cells), board.size, old(currentPlayer), q, r, aiPick)
      decreases if currentPlayer == White then 0 else 2
    {
      var valid := IsValidMove(q, r, currentPlayer);
      if !valid {
        return Fail(IllegalArgument);
      }
      PlaceAndFlipSpec(board.cells, board.size, q, r, StateOf(currentPlayer));
      board.Move(q, r, StateOf(currentPlayer));
      FlipOpponentsPieces(q, r);
      ChangePlayer();
      if currentPlayer == White {
        MakeAiMove(aiPick);
        ChangePlayer();
      }
      o := Outcome.Pass;
    }

    /** The AI seat (an AIPlayer without strategy): with White to move and a move available, play the picked one. */
    method MakeAiMove(aiPick: nat)
      requires Valid()
      modifies this, board
      ensures Valid()
      ensures old(currentPlayer) == White && ValidMoves(old(board.cells), board.size, White) != [] ==>
        board.cells == AiTurn(old(board.cells), board.size, aiPick) && currentPlayer == Black
      ensures !(old(currentPlayer) == White && ValidMoves(old(board.cells), board.size, White) != []) ==>
        board.cells == old(board.cells) && currentPlayer == old(currentPlayer)
      decreases 1
    {
      var validMoves := GetValidMoves();
      if validMoves != [] && currentPlayer == White {
        var aiMove := validMoves[aiPick % |validMoves|];
        ValidMovesSpec(board.cells, board.size, White);
        assert aiMove in validMoves;
        var o := Play(aiMove.q, aiMove.r, aiPick);
      }
    }

    /** pass: the turn passes, the AI seat replies if White is to move, and the turn passes twice more. */
    method Pass(aiPick: nat)
      requires Valid()
      modifies this, board
      ensures Valid()
      ensures (board.cells, currentPlayer) == PassResult(old(board.cells), board.size, old(currentPlayer), aiPick)
    {
      ChangePlayer();
      if currentPlayer == White {
        MakeAiMove(aiPick);
        ChangePlayer();
      }
      ChangePlayer();
    }
  }
}
