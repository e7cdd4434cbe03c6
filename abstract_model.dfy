/**
 * AbstractModel: the winner decision and the score and move scans written once for
 * a game over a size-6 hexagonal board. Its abstract operations (isGameOver,
 * countPieces, isValidMove) are parameters here.
 */
module AbstractModels {
  import opened Outcomes
  import opened CellStates
  import opened GamePlayers
  import opened HexCoordinates
  import opened Moves
  import opened Grid
  import opened HexBoard

  /** The player with strictly more pieces, or None on a tie. */
  function DecideWinner(blackCount: int, whiteCount: int): (w: Option<Player>)
    ensures w == Some(Black) <==> blackCount > whiteCount
    ensures w == Some(White) <==> whiteCount > blackCount
    ensures w == None <==> blackCount == whiteCount
  {
    if blackCount > whiteCount then Some(Black)
    else if whiteCount > blackCount then Some(White)
    else None
  }

  /** The filter of score. */
  function OwnKeep(cells: map<HexCoordinate, CellState>, s: CellState): HexCoordinate -> bool {
    c => c in cells && cells[c] == s
  }

  /** score(p): the cells of [0,size)^2 holding p's disc. */
  function ScoreOf(cells: map<HexCoordinate, CellState>, size: nat, p: Player): nat {
    CountIf(Scan(size), OwnKeep(cells, StateOf(p)))
  }

  /** The two scores and the empty cells of the square add up to size^2. */
  lemma ScoresPartition(cells: map<HexCoordinate, CellState>, size: nat)
    requires forall c: HexCoordinate :: InSquare(size, c.q, c.r) ==> c in cells
    ensures ScoreOf(cells, size, Black) + ScoreOf(cells, size, White) + CountIf(Scan(size), OwnKeep(cells, Empty)) == size * size
    ensures ScoreOf(cells, size, Black) + ScoreOf(cells, size, White) <= size * size
  {
    ScanShape(size);
    CountIfPartition(Scan(size), OwnKeep(cells, X), OwnKeep(cells, O), OwnKeep(cells, Empty));
  }

  /** A player with a piece in the square scores at least one, and nobody scores above size^2. */
  lemma ScorePositive(cells: map<HexCoordinate, CellState>, size: nat, p: Player, c: HexCoordinate)
    requires InSquare(size, c.q, c.r) && c in cells && cells[c] == StateOf(p)
    ensures 0 < ScoreOf(cells, size, p) <= size * size
  {
    ScanShape(size);
    CountIfPositive(Scan(size), OwnKeep(cells, StateOf(p)), c);
    CountIfAtMost(Scan(size), OwnKeep(cells, StateOf(p)));
  }

  /** The filter of the shared getValidMoves, for a given isValidMove. */
  function KeepValid(isValidMove: (map<HexCoordinate, CellState>, int, int, Player) -> bool,
                     cells: map<HexCoordinate, CellState>, p: Player): HexCoordinate -> bool
  {
    (c: HexCoordinate) => isValidMove(cells, c.q, c.r, p)
  }

  /** Whatever isValidMove is, the shared getValidMoves lists exactly its moves in [0,size)^2, ascending. */
  lemma SharedValidMovesSpec(isValidMove: (map<HexCoordinate, CellState>, int, int, Player) -> bool,
                             cells: map<HexCoordinate, CellState>, size: nat, p: Player)
    ensures var moves := Select(Scan(size), KeepValid(isValidMove, cells, p));
      && (forall m :: m in moves <==> InSquare(size, m.q, m.r) && isValidMove(cells, m.q, m.r, p))
      && Ascending(moves)
  {
    ScanShape(size);
    SelectMembers(Scan(size), KeepValid(isValidMove, cells, p));
    SelectAscending(Scan(size), KeepValid(isValidMove, cells, p));
  }

  class AbstractModel {
    const board: BoardImpl
    var currentPlayer: Player

    constructor()
      ensures fresh(board) && board.Valid() && board.size == 6
      ensures board.cells == StartCells(6) && currentPlayer == Black
    {
      board := new BoardImpl(6);
      currentPlayer := Black;
    }

    /** getWinner, given the subclass's isGameOver and countPieces. */
    method GetWinner(isGameOver: map<HexCoordinate, CellState> -> bool,
                     countPieces: (map<HexCoordinate, CellState>, Player) -> int)
      returns (winner: Result<Option<Player>>)
      ensures !isGameOver(board.cells) ==> winner == Failure(IllegalState)
      ensures isGameOver(board.cells) ==>
        winner == Success(DecideWinner(countPieces(board.cells, Black), countPieces(board.cells, White)))
    {
      if !isGameOver(board.cells) {
        return Failure(IllegalState);
      }
      var blackCount := countPieces(board.cells, Black);
      var whiteCount := countPieces(board.cells, White);
      if blackCount > whiteCount {
        winner := Success(Some(Black));
      } else if whiteCount > blackCount {
        winner := Success(Some(White));
      } else {
        winner := Success(None);
      }
    }

    /** score: the counter loop over [0,size)^2. */
    method Score(player: Player) returns (score: nat)
      requires board.Valid() && board.size == 6
      ensures score == ScoreOf(board.cells, board.size, player)
    {
      var playerDisc := if player == Black then X else O;
      score := CountWhere(board.size, OwnKeep(board.cells, playerDisc));
    }

    /** getValidMoves, given the subclass's isValidMove. */
    method GetValidMoves(isValidMove: (map<HexCoordinate, CellState>, int, int, Player) -> bool)
      returns (moves: seq<Move>)
      requires board.size >= 0
      ensures moves == Select(Scan(board.size), KeepValid(isValidMove, board.cells, currentPlayer))
    {
      moves := ScanMoves(board.size, KeepValid(isValidMove, board.cells, currentPlayer));
    }
  }
}
