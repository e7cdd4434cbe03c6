/**
 * The rules of the hexagonal ReversiGame as functions of the board's cell map:
 * legality, the move scan, score, game over, and what play and pass leave behind.
 */
module HexRules {
  import opened Outcomes
  import opened CellStates
  import opened GamePlayers
  import opened HexCoordinates
  import opened Moves
  import opened Cells
  import opened Grid
  import opened Flips
  import opened HexBoard
  import opened AbstractModels

  /** What `getNeighbors(board)` returns for the cell at c on the hexagonal grid. */
  function NeighborStates(cells: map<HexCoordinate, CellState>, c: HexCoordinate): seq<(HexCoordinate, CellState)> {
    NeighborsIn(HexNeighbors(c), cells)
  }

  predicate OwnNeighbor(cells: map<HexCoordinate, CellState>, c: HexCoordinate, s: CellState) {
    exists i :: 0 <= i < |NeighborStates(cells, c)| && NeighborStates(cells, c)[i].1 == s
  }

  /**
   * isValidMove: a cell that fails the board's cube test and is occupied is refused;
   * otherwise the move is legal when a hexagonal neighbour holds the player's piece.
   * The cell must exist.
   */
  predicate ValidMove(cells: map<HexCoordinate, CellState>, size: int, q: int, r: int, p: Player)
    requires HexCoordinate(q, r) in cells
  {
    if !IsValidCell(size, q, r) && cells[HexCoordinate(q, r)] != Empty then false
    else OwnNeighbor(cells, HexCoordinate(q, r), StateOf(p))
  }

  /**
   * Legality is adjacency to an own piece. The target's emptiness is only
   * looked at outside the cube test.
   */
  lemma ValidMoveSpec(cells: map<HexCoordinate, CellState>, size: int, q: int, r: int, p: Player)
    requires HexCoordinate(q, r) in cells
    ensures ValidMove(cells, size, q, r, p) <==>
      (IsValidCell(size, q, r) || cells[HexCoordinate(q, r)] == Empty) &&
      exists d :: d in cells && cells[d] == StateOf(p) && HexDistance(HexCoordinate(q, r), d) == 1
  {
    var c := HexCoordinate(q, r);
    HexNeighborsSpec(c);
    var ns := NeighborStates(cells, c);
    NeighborsInSpec(HexNeighbors(c), cells);
    if OwnNeighbor(cells, c, StateOf(p)) {
      var i :| 0 <= i < |ns| && ns[i].1 == StateOf(p);
      assert ns[i] in ns;
      assert HexDistance(c, ns[i].0) == 1;
    }
    if d :| d in cells && cells[d] == StateOf(p) && HexDistance(c, d) == 1 {
      assert (d, cells[d]) in ns;
      var i :| 0 <= i < |ns| && ns[i] == (d, cells[d]);
      assert OwnNeighbor(cells, c, StateOf(p));
    }
  }

  /** The filter of getValidMoves. */
  function ValidKeep(cells: map<HexCoordinate, CellState>, size: int, p: Player): HexCoordinate -> bool {
    c => c in cells && ValidMove(cells, size, c.q, c.r, p)
  }

  /** getValidMoves: q outer, r inner over [0,size)^2, the cells legal for p. */
  function ValidMoves(cells: map<HexCoordinate, CellState>, size: nat, p: Player): seq<Move> {
    Select(Scan(size), ValidKeep(cells, size, p))
  }

  /** The move list holds exactly the legal moves of the square, each once, ascending by compareTo. */
  lemma ValidMovesSpec(cells: map<HexCoordinate, CellState>, size: nat, p: Player)
    ensures forall m :: m in ValidMoves(cells, size, p) <==>
      InSquare(size, m.q, m.r) && HexCoordinate(m.q, m.r) in cells && ValidMove(cells, size, m.q, m.r, p)
    ensures Ascending(ValidMoves(cells, size, p))
    ensures |ValidMoves(cells, size, p)| <= size * size
  {
    ScanShape(size);
    SelectMembers(Scan(size), ValidKeep(cells, size, p));
    SelectAscending(Scan(size), ValidKeep(cells, size, p));
  }

  /** hasValidMoves(p): some cell of board.getValidMoves is EMPTY and legal for p. */
  predicate HasMoveFor(cells: map<HexCoordinate, CellState>, size: int, p: Player) {
    exists c :: c in BoardMoves(cells, size) && ValidMove(cells, size, c.q, c.r, p)
  }

  /** Scanning a list that holds exactly the board's candidates decides HasMoveFor. */
  lemma CandidatesDecideMove(cells: map<HexCoordinate, CellState>, size: int, p: Player, candidates: seq<HexCoordinate>)
    requires forall c :: c in candidates <==> c in BoardMoves(cells, size)
    requires forall i :: 0 <= i < |candidates| ==> candidates[i] in cells
    ensures HasMoveFor(cells, size, p) <==>
      exists i :: 0 <= i < |candidates| && cells[candidates[i]] == Empty && ValidKeep(cells, size, p)(candidates[i])
  {
    if c :| c in BoardMoves(cells, size) && ValidMove(cells, size, c.q, c.r, p) {
      var i :| 0 <= i < |candidates| && candidates[i] == c;
      assert ValidKeep(cells, size, p)(candidates[i]);
    }
    if i :| 0 <= i < |candidates| && cells[candidates[i]] == Empty && ValidKeep(cells, size, p)(candidates[i]) {
      assert candidates[i] in candidates;
    }
  }

  /** isGameOver. */
  predicate GameOver(cells: map<HexCoordinate, CellState>, size: int) {
    (!HasMoveFor(cells, size, Black) && !HasMoveFor(cells, size, White)) || NoEmpty(cells)
  }

  /**
   * A player has a move only where an EMPTY cell touches an occupied cell and one of
   * its own pieces; so the game is over once no EMPTY cell touches any piece of either colour.
   */
  lemma HasMoveNeedsOwnNeighbor(cells: map<HexCoordinate, CellState>, size: int, p: Player)
    requires HasMoveFor(cells, size, p)
    ensures exists c, d :: c in cells && cells[c] == Empty && d in cells && cells[d] == StateOf(p) && HexDistance(c, d) == 1
  {
    var c :| c in BoardMoves(cells, size) && ValidMove(cells, size, c.q, c.r, p);
    ValidMoveSpec(cells, size, c.q, c.r, p);
    var d :| d in cells && cells[d] == StateOf(p) && HexDistance(c, d) == 1;
  }

  /** A full board ends the game and offers neither player a move. */
  lemma FullBoardIsOver(cells: map<HexCoordinate, CellState>, size: int)
    requires NoEmpty(cells)
    ensures GameOver(cells, size) && !HasMoveFor(cells, size, Black) && !HasMoveFor(cells, size, White)
  {
    FullHasNoMoves(cells, size);
  }

  /** The AI seat's turn: when White has moves it plays the one `aiPick` selects, otherwise nothing happens. */
  function AiTurn(cells: map<HexCoordinate, CellState>, size: nat, aiPick: nat): map<HexCoordinate, CellState> {
    var moves := ValidMoves(cells, size, White);
    if moves == [] then cells
    else var m := moves[aiPick % |moves|]; Place(cells, size, m.q, m.r, White)
  }

  /** The cells and current player after a legal `play(q, r)` by `current`. */
  function PlayResult(cells: map<HexCoordinate, CellState>, size: nat, current: Player, q: int, r: int, aiPick: nat)
    : (map<HexCoordinate, CellState>, Player)
  {
    var after := Place(cells, size, q, r, current);
    if current == White then (after, Black)
    else if ValidMoves(after, size, White) == [] then (after, Black)
    else (AiTurn(after, size, aiPick), White)
  }

  /** The cells and current player after `pass()` by `current`. */
  function PassResult(cells: map<HexCoordinate, CellState>, size: nat, current: Player, aiPick: nat)
    : (map<HexCoordinate, CellState>, Player)
  {
    if current == White then (cells, White)
    else if ValidMoves(cells, size, White) == [] then (cells, White)
    else (AiTurn(cells, size, aiPick), Black)
  }

  /** The AI's move, if any, stays on the board's keys and inside the square. */
  lemma AiTurnSpec(cells: map<HexCoordinate, CellState>, size: nat, aiPick: nat)
    ensures AiTurn(cells, size, aiPick).Keys == cells.Keys
    ensures forall k :: k in cells && !InSquare(size, k.q, k.r) ==> AiTurn(cells, size, aiPick)[k] == cells[k]
    ensures forall k :: k in cells ==> (AiTurn(cells, size, aiPick)[k] == Empty ==> cells[k] == Empty)
  {
    var moves := ValidMoves(cells, size, White);
    if moves != [] {
      var m := moves[aiPick % |moves|];
      ValidMovesSpec(cells, size, White);
      assert m in moves;
      PlaceAndFlipSpec(cells, size, m.q, m.r, StateOf(White));
    }
  }

  /**
   * A legal play keeps the key set, places the mover's piece (which only the AI's
   * reply can flip back), and leaves every cell outside [0,size)^2 other than the
   * target as it was. No cell becomes EMPTY.
   */
  lemma PlaySpec(cells: map<HexCoordinate, CellState>, size: nat, current: Player, q: int, r: int, aiPick: nat)
    requires HexCoordinate(q, r) in cells
    ensures var (after, next) := PlayResult(cells, size, current, q, r, aiPick);
      && after.Keys == cells.Keys
      && (current == White ==> next == Black && after[HexCoordinate(q, r)] == O)
      && (forall k :: k in cells && !InSquare(size, k.q, k.r) && k != HexCoordinate(q, r) ==> after[k] == cells[k])
      && (forall k :: k in cells ==> (after[k] == Empty ==> cells[k] == Empty))
      && after[HexCoordinate(q, r)] != Empty
  {
    var placed := Place(cells, size, q, r, current);
    PlaceAndFlipSpec(cells, size, q, r, StateOf(current));
    AiTurnSpec(placed, size, aiPick);
  }

  /** Passing never changes the board for White, and for Black only by the AI's reply. */
  lemma PassSpec(cells: map<HexCoordinate, CellState>, size: nat, current: Player, aiPick: nat)
    ensures var (after, next) := PassResult(cells, size, current, aiPick);
      && after.Keys == cells.Keys
      && (current == White ==> after == cells && next == White)
      && (ValidMoves(cells, size, White) == [] ==> after == cells && next == White)
      && (forall k :: k in cells && !InSquare(size, k.q, k.r) ==> after[k] == cells[k])
  {
    AiTurnSpec(cells, size, aiPick);
  }
}
