/** The rules of SquareReversiGame as functions of the board's cell map. */
module SquareRules {
  import opened CellStates
  import opened GamePlayers
  import opened HexCoordinates
  import opened Moves
  import opened Cells
  import opened Grid
  import opened Flips
  import opened SquareBoards

  /** What `getNeighbors(board)` returns for the cell at c on the square grid. */
  function NeighborStates(cells: map<HexCoordinate, CellState>, c: HexCoordinate): seq<(HexCoordinate, CellState)> {
    NeighborsIn(SquareNeighbors(c), cells)
  }

  predicate OwnNeighbor(cells: map<HexCoordinate, CellState>, c: HexCoordinate, s: CellState) {
    exists i :: 0 <= i < |NeighborStates(cells, c)| && NeighborStates(cells, c)[i].1 == s
  }

  /** isValidMove. The cell must exist, so the first test never refuses anything on a real board. */
  predicate ValidMove(cells: map<HexCoordinate, CellState>, size: int, q: int, r: int, p: Player)
    requires HexCoordinate(q, r) in cells
  {
    if !InSquare(size, q, r) && cells[HexCoordinate(q, r)] != Empty then false
    else OwnNeighbor(cells, HexCoordinate(q, r), StateOf(p))
  }

  /** Inside the board a move is legal iff an orthogonal neighbour holds the player's piece; occupancy is not looked at. */
  lemma ValidMoveSpec(cells: map<HexCoordinate, CellState>, size: int, q: int, r: int, p: Player)
    requires HexCoordinate(q, r) in cells && InSquare(size, q, r)
    ensures ValidMove(cells, size, q, r, p) <==>
      exists d :: d in cells && cells[d] == StateOf(p) && SquareDistance(HexCoordinate(q, r), d) == 1
  {
    var c := HexCoordinate(q, r);
    SquareNeighborsSpec(c);
    var ns := NeighborStates(cells, c);
    NeighborsInSpec(SquareNeighbors(c), cells);
    if OwnNeighbor(cells, c, StateOf(p)) {
      var i :| 0 <= i < |ns| && ns[i].1 == StateOf(p);
      assert ns[i] in ns;
    }
    if d :| d in cells && cells[d] == StateOf(p) && SquareDistance(HexCoordinate(q, r), d) == 1 {
      assert (d, cells[d]) in ns;
      var i :| 0 <= i < |ns| && ns[i] == (d, cells[d]);
      assert OwnNeighbor(cells, c, StateOf(p));
    }
  }

  function ValidKeep(cells: map<HexCoordinate, CellState>, size: int, p: Player): HexCoordinate -> bool {
    c => c in cells && ValidMove(cells, size, c.q, c.r, p)
  }

  /** getValidMoves: q outer, r inner over [0,size)^2, the cells legal for p. */
  function ValidMoves(cells: map<HexCoordinate, CellState>, size: nat, p: Player): seq<Move> {
    Select(Scan(size), ValidKeep(cells, size, p))
  }

  lemma ValidMovesSpec(cells: map<HexCoordinate, CellState>, size: nat, p: Player)
    ensures forall m :: m in ValidMoves(cells, size, p) <==>
      InSquare(size, m.q, m.r) && HexCoordinate(m.q, m.r) in cells && ValidMove(cells, size, m.q, m.r, p)
    ensures Ascending(ValidMoves(cells, size, p))
    ensures |ValidMoves(cells, size, p)| <= size * size
  {
    ScanShape(size);
    SelectMembers(Scan(size), ValidKeep(cells, size, p));
    SelectAscending(Scan(size), ValidKeep(cells, size, p));
  }

  /** hasValidMovesForPlayer: some cell of board.getValidMoves is EMPTY and legal for p. */
  predicate HasMoveFor(cells: map<HexCoordinate, CellState>, size: int, p: Player) {
    exists c :: c in BoardMoves(cells, size) && ValidMove(cells, size, c.q, c.r, p)
  }

  /** isGameOver: board.getValidMoves is empty (hasValidMoves can only fail on an empty list). */
  predicate GameOver(cells: map<HexCoordinate, CellState>, size: int) {
    BoardMoves(cells, size) == {}
  }

  /** A full board is over; and a player who has a move means the game is not over. */
  lemma GameOverSpec(cells: map<HexCoordinate, CellState>, size: int, p: Player)
    ensures NoEmpty(cells) ==> GameOver(cells, size)
    ensures HasMoveFor(cells, size, p) ==> !GameOver(cells, size)
  {
    if NoEmpty(cells) {
      FullHasNoMoves(cells, size);
    }
  }

  /** The AI seat's turn: when White has moves it plays the one `aiPick` selects. */
  function AiTurn(cells: map<HexCoordinate, CellState>, size: nat, aiPick: nat): map<HexCoordinate, CellState> {
    var moves := ValidMoves(cells, size, White);
    if moves == [] then cells
    else var m := moves[aiPick % |moves|]; Place(cells, size, m.q, m.r, White)
  }

  /** The cells and current player after a legal `play(q, r)` by `current`. */
  function PlayResult(cells: map<HexCoordinate, CellState>, size: nat, current: Player, q: int, r: int, aiPick: nat)
    : (map<HexCoordinate, CellState>, Player)
  {
    var after := Place(cells, size, q, r, current);
    if current == White then (after, Black)
    else if ValidMoves(after, size, White) == [] then (after, Black)
    else (AiTurn(after, size, aiPick), White)
  }

  lemma AiTurnSpec(cells: map<HexCoordinate, CellState>, size: nat, aiPick: nat)
    ensures AiTurn(cells, size, aiPick).Keys == cells.Keys
    ensures forall k :: k in cells ==> (AiTurn(cells, size, aiPick)[k] == Empty ==> cells[k] == Empty)
  {
    var moves := ValidMoves(cells, size, White);
    if moves != [] {
      var m := moves[aiPick % |moves|];
      ValidMovesSpec(cells, size, White);
      assert m in moves;
      PlaceAndFlipSpec(cells, size, m.q, m.r, StateOf(White));
    }
  }

  /** A legal play keeps the key set, never empties a cell, and fills the target. */
  lemma PlaySpec(cells: map<HexCoordinate, CellState>, size: nat, current: Player, q: int, r: int, aiPick: nat)
    requires HexCoordinate(q, r) in cells
    ensures var (after, next) := PlayResult(cells, size, current, q, r, aiPick);
      && after.Keys == cells.Keys
      && (current == White ==> next == Black && after[HexCoordinate(q, r)] == O)
      && (forall k :: k in cells ==> (after[k] == Empty ==> cells[k] == Empty))
      && after[HexCoordinate(q, r)] != Empty
  {
    var placed := Place(cells, size, q, r, current);
    PlaceAndFlipSpec(cells, size, q, r, StateOf(current));
    AiTurnSpec(placed, size, aiPick);
  }
}
