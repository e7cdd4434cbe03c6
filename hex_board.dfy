/** The hexagonal board: a map from coordinate to cell state, built row by row. */
module HexBoard {
  import opened Outcomes
  import opened CellStates
  import opened HexCoordinates
  import opened Grid

  function Min(a: int, b: int): int { if a < b then a else b }
  function Max(a: int, b: int): int { if a < b then b else a }

  /** The coordinates createBoard stores: row r in [0, 2size-1), q in [max(0, r-size+1), min(2size-1, r+size)). */
  predicate IsHexKey(size: int, c: HexCoordinate) {
    0 <= c.r < 2 * size - 1 && Max(0, c.r - size + 1) <= c.q < Min(2 * size - 1, c.r + size)
  }

  function HexKeys(size: int): (keys: set<HexCoordinate>)
    ensures forall c :: c in keys <==> IsHexKey(size, c)
  {
    var keys := set r: int, q: int | 0 <= r < 2 * size - 1 && 0 <= q < 2 * size - 1 && IsHexKey(size, HexCoordinate(q, r))
      :: HexCoordinate(q, r);
    assert forall c :: IsHexKey(size, c) ==> c == HexCoordinate(c.q, c.r) && c in keys;
    keys
  }

  /** Every stored coordinate, EMPTY. */
  function EmptyCells(size: int): map<HexCoordinate, CellState> {
    map c | c in HexKeys(size) :: Empty
  }

  /** The board the constructor leaves: X at (4,4), (6,5), (5,6) and O at (5,4), (4,5), (6,6). */
  function StartCells(size: int): map<HexCoordinate, CellState> {
    EmptyCells(size)[HexCoordinate(4, 4) := X][HexCoordinate(6, 5) := X][HexCoordinate(5, 6) := X]
                    [HexCoordinate(5, 4) := O][HexCoordinate(4, 5) := O][HexCoordinate(6, 6) := O]
  }

  /** Number of coordinates createBoard stores in row r. */
  function RowWidth(size: int, r: int): int {
    Min(2 * size - 1, r + size) - Max(0, r - size + 1)
  }

  /** Number of coordinates in rows 0 .. n-1. */
  function RowsTotal(size: int, n: nat): int {
    if n == 0 then 0 else RowsTotal(size, n - 1) + RowWidth(size, n - 1)
  }

  lemma {:induction false} RowsTotalUpper(size: int, n: nat)
    requires size >= 1 && n <= size
    ensures 2 * RowsTotal(size, n) == 2 * n * size + n * (n - 1)
  {
    if n > 0 {
      RowsTotalUpper(size, n - 1);
    }
  }

  lemma {:induction false} RowsTotalLower(size: int, n: nat)
    requires size >= 1 && size <= n <= 2 * size - 1
    ensures 2 * RowsTotal(size, n) == 3 * size * size - size + (n - size) * (5 * size - n - 3)
  {
    if n == size {
      RowsTotalUpper(size, n);
      assert 2 * n * size + n * (n - 1) == 3 * size * size - size;
      assert (n - size) * (5 * size - n - 3) == 0;
    } else {
      RowsTotalLower(size, n - 1);
      assert RowsTotal(size, n) == RowsTotal(size, n - 1) + RowWidth(size, n - 1);
      assert RowWidth(size, n - 1) == 3 * size - 1 - n;
      LowerStepIdentity(size, n);
    }
  }

  /** The arithmetic of one step of RowsTotalLower. */
  lemma LowerStepIdentity(size: int, n: int)
    ensures (n - 1 - size) * (5 * size - (n - 1) - 3) + 2 * (3 * size - 1 - n) == (n - size) * (5 * size - n - 3)
  {
    var b := 5 * size - n - 3;
    assert (n - 1 - size) * (b + 1) == (n - size) * b + (n - size) - b - 1;
  }

  /** The coordinates createBoard has stored before reaching (q, r). */
  predicate StoredBefore(size: int, c: HexCoordinate, r: int, q: int) {
    IsHexKey(size, c) && (c.r < r || (c.r == r && c.q < q))
  }

  /** Row r holds a non-empty range of q. */
  lemma RowStep(size: int, r: nat)
    requires size >= 1 && r < 2 * size - 1
    ensures Max(0, r - size + 1) < Min(2 * size - 1, r + size)
    ensures RowsTotal(size, r + 1) == RowsTotal(size, r) + Min(2 * size - 1, r + size) - Max(0, r - size + 1)
  {
  }

  /** The hexagon of side `size` has 3size^2 - 3size + 1 cells. */
  lemma HexCellCount(size: int)
    requires size >= 1
    ensures RowsTotal(size, 2 * size - 1) == 3 * size * size - 3 * size + 1
  {
    RowsTotalLower(size, 2 * size - 1);
    assert (size - 1) * (3 * size - 2) == 3 * size * size - 5 * size + 2;
  }

  /** Each of the constructor's six setState calls finds its cell present and EMPTY. */
  lemma PlacementsStartEmpty(size: int)
    requires size >= 4
    ensures var e := EmptyCells(size);
      && HexCoordinate(4, 4) in e && e[HexCoordinate(4, 4)] == Empty
      && HexCoordinate(6, 5) in e && e[HexCoordinate(6, 5)] == Empty
      && HexCoordinate(5, 6) in e && e[HexCoordinate(5, 6)] == Empty
      && HexCoordinate(5, 4) in e && e[HexCoordinate(5, 4)] == Empty
      && HexCoordinate(4, 5) in e && e[HexCoordinate(4, 5)] == Empty
      && HexCoordinate(6, 6) in e && e[HexCoordinate(6, 6)] == Empty
  {
    assert IsHexKey(size, HexCoordinate(4, 4)) && IsHexKey(size, HexCoordinate(6, 5)) && IsHexKey(size, HexCoordinate(5, 6));
    assert IsHexKey(size, HexCoordinate(5, 4)) && IsHexKey(size, HexCoordinate(4, 5)) && IsHexKey(size, HexCoordinate(6, 6));
  }

  /** The centred cube-coordinate test of skipCell. */
  predicate SkipCell(size: int, q: int, r: int) {
    !(-size + 1 <= q <= size - 1 && -size + 1 <= r <= size - 1 && -size + 1 <= -q - r <= size - 1)
  }

  predicate IsValidCell(size: int, q: int, r: int) {
    !SkipCell(size, q, r)
  }

  /** Among the stored coordinates, the "valid" ones are only the triangle q, r >= 0, q + r <= size - 1. */
  lemma ValidKeysAreTriangle(size: int, c: HexCoordinate)
    requires IsHexKey(size, c)
    ensures IsValidCell(size, c.q, c.r) <==> c.q + c.r <= size - 1
  {
  }

  /** For boards of size 4 to 8 none of the six starting pieces sits on a "valid" cell. */
  lemma StartingPiecesNotValid(size: int)
    requires 4 <= size <= 8
    ensures !IsValidCell(size, 4, 4) && !IsValidCell(size, 6, 5) && !IsValidCell(size, 5, 6)
    ensures !IsValidCell(size, 5, 4) && !IsValidCell(size, 4, 5) && !IsValidCell(size, 6, 6)
    ensures IsHexKey(size, HexCoordinate(4, 4)) && IsHexKey(size, HexCoordinate(6, 6))
  {
  }

  /** The four orthogonal offsets hasAdjacentOccupiedCell inspects, in its order. */
  function AdjacentFour(c: HexCoordinate): seq<HexCoordinate> {
    [HexCoordinate(c.q - 1, c.r), HexCoordinate(c.q + 1, c.r), HexCoordinate(c.q, c.r - 1), HexCoordinate(c.q, c.r + 1)]
  }

  /** The neighbour passes isValidCell, exists and is not EMPTY. */
  predicate OccupiedNeighbor(cells: map<HexCoordinate, CellState>, size: int, n: HexCoordinate) {
    IsValidCell(size, n.q, n.r) && n in cells && cells[n] != Empty
  }

  predicate AdjacentOccupied(cells: map<HexCoordinate, CellState>, size: int, c: HexCoordinate) {
    exists i :: 0 <= i < 4 && OccupiedNeighbor(cells, size, AdjacentFour(c)[i])
  }

  /** The cells getValidMoves reports: EMPTY with an occupied valid orthogonal neighbour. */
  function BoardMoves(cells: map<HexCoordinate, CellState>, size: int): (ms: set<HexCoordinate>)
    ensures forall c :: c in ms ==> c in cells && cells[c] == Empty
  {
    set c | c in cells && cells[c] == Empty && AdjacentOccupied(cells, size, c)
  }

  predicate NoEmpty(cells: map<HexCoordinate, CellState>) {
    forall c :: c in cells ==> cells[c] != Empty
  }

  /** A full board offers no moves. */
  lemma FullHasNoMoves(cells: map<HexCoordinate, CellState>, size: int)
    requires NoEmpty(cells)
    ensures BoardMoves(cells, size) == {}
  {
  }

  class BoardImpl {
    const size: int
    var cells: map<HexCoordinate, CellState>

    /** The key set is the one createBoard builds, and the constructor's precondition held. */
    ghost predicate Valid()
      reads this
    {
      size >= 4 && cells.Keys == HexKeys(size)
    }

    /** A size below 4 makes the constructor's setState calls reach a missing cell. */
    constructor(size: int)
      requires size >= 4
      ensures this.size == size
      ensures Valid() && cells == StartCells(size)
      ensures |cells| == RowsTotal(size, 2 * size - 1)
    {
      this.size := size;
      cells := map[];
      new;
      CreateBoard();
      PlaceStartingPieces();
    }

    /** The constructor's six setState calls, each on an EMPTY cell of the fresh board. */
    method PlaceStartingPieces()
      requires size >= 4 && cells == EmptyCells(size)
      modifies this
      ensures cells == StartCells(size) && cells.Keys == HexKeys(size) && |cells| == old(|cells|)
    {
      PlacementsStartEmpty(size);
      ghost var e := cells;
      var o := SetState(4, 4, X);
      ghost var e1 := e[HexCoordinate(4, 4) := X];
      assert cells == e1 && e1[HexCoordinate(6, 5)] == Empty;
      o := SetState(6, 5, X);
      ghost var e2 := e1[HexCoordinate(6, 5) := X];
      assert cells == e2 && e2[HexCoordinate(5, 6)] == Empty;
      o := SetState(5, 6, X);
      ghost var e3 := e2[HexCoordinate(5, 6) := X];
      assert cells == e3 && e3[HexCoordinate(5, 4)] == Empty;
      o := SetState(5, 4, O);
      ghost var e4 := e3[HexCoordinate(5, 4) := O];
      assert cells == e4 && e4[HexCoordinate(4, 5)] == Empty;
      o := SetState(4, 5, O);
      ghost var e5 := e4[HexCoordinate(4, 5) := O];
      assert cells == e5 && e5[HexCoordinate(6, 6)] == Empty;
      o := SetState(6, 6, O);
    }

    /** createBoard: row by row, every stored coordinate EMPTY. */
    method CreateBoard()
      requires cells == map[] && size >= 1
      modifies this
      ensures cells == EmptyCells(size)
      ensures |cells| == RowsTotal(size, 2 * size - 1)
    {
      var totalRows := 2 * size - 1;
      var halfSize := size - 1;
      var r := 0;
      while r < totalRows
        invariant 0 <= r <= totalRows
        invariant forall c :: c in cells <==> StoredBefore(size, c, r, Max(0, r - size + 1))
        invariant forall c :: c in cells ==> cells[c] == Empty
        invariant |cells| == RowsTotal(size, r)
      {
        var maxQ := Min(2 * size - 1, r + halfSize + 1);
        var minQ := Max(0, r - halfSize);
        RowStep(size, r);
        FillRow(r, minQ, maxQ);
        r := r + 1;
      }
      assert cells.Keys == EmptyCells(size).Keys;
    }

    /** The inner loop of createBoard: row r, q from minQ up to maxQ, each EMPTY. */
    method FillRow(r: int, minQ: int, maxQ: int)
      requires size >= 1 && 0 <= r < 2 * size - 1
      requires minQ == Max(0, r - size + 1) && maxQ == Min(2 * size - 1, r + size) && minQ < maxQ
      requires forall c :: c in cells <==> StoredBefore(size, c, r, minQ)
      requires forall c :: c in cells ==> cells[c] == Empty
      modifies this
      ensures forall c :: c in cells <==> StoredBefore(size, c, r + 1, Max(0, r + 1 - size + 1))
      ensures forall c :: c in cells ==> cells[c] == Empty
      ensures |cells| == old(|cells|) + (maxQ - minQ)
    {
      var q := minQ;
      while q < maxQ
        invariant minQ <= q <= maxQ
        invariant forall c :: c in cells <==> StoredBefore(size, c, r, q)
        invariant forall c :: c in cells ==> cells[c] == Empty
        invariant |cells| == old(|cells|) + (q - minQ)
      {
        var c := HexCoordinate(q, r);
        assert c !in cells;
        cells := cells[c := Empty];
        q := q + 1;
      }
    }

    /** move: overwrite the cell unconditionally. The coordinate must exist. */
    method Move(q: int, r: int, state: CellState)
      requires HexCoordinate(q, r) in cells
      modifies this
      ensures cells == old(cells)[HexCoordinate(q, r) := state]
    {
      cells := cells[HexCoordinate(q, r) := state];
    }

    /** setState: only an EMPTY cell may be set. The coordinate must exist. */
    method SetState(q: int, r: int, state: CellState) returns (o: Outcome)
      requires HexCoordinate(q, r) in cells
      modifies this
      ensures old(cells)[HexCoordinate(q, r)] == Empty ==> o == Pass && cells == old(cells)[HexCoordinate(q, r) := state]
      ensures old(cells)[HexCoordinate(q, r)] != Empty ==> o == Fail(IllegalArgument) && cells == old(cells)
    {
      if cells[HexCoordinate(q, r)] != Empty {
        return Fail(IllegalArgument);
      }
      cells := cells[HexCoordinate(q, r) := state];
      o := Pass;
    }

    /** getCellStateAt: None stands for the null returned for a missing coordinate. */
    function GetCellStateAt(c: HexCoordinate): (s: Option<CellState>)
      reads this
      ensures s.None? <==> c !in cells
      ensures s.Some? ==> s.value == cells[c]
    {
      if c in cells then Some(cells[c]) else None
    }

    method HasAdjacentOccupiedCell(c: HexCoordinate) returns (b: bool)
      ensures b == AdjacentOccupied(cells, size, c)
    {
      var neighbors := AdjacentFour(c);
      for i := 0 to 4
        invariant forall j :: 0 <= j < i ==> !OccupiedNeighbor(cells, size, neighbors[j])
      {
        var n := neighbors[i];
        if IsValidCell(size, n.q, n.r) {
          if n in cells && cells[n] != Empty {
            return true;
          }
        }
      }
      return false;
    }

    /** getValidMoves: the cells in map order, each once. */
    method GetValidMoves() returns (moves: seq<HexCoordinate>)
      ensures forall c :: c in moves <==> c in BoardMoves(cells, size)
      ensures forall i :: 0 <= i < |moves| ==> moves[i] in cells && cells[moves[i]] == Empty
      ensures NoDuplicates(moves)
    {
      moves := [];
      var remaining := cells.Keys;
      while remaining != {}
        invariant remaining <= cells.Keys
        invariant forall c :: c in moves <==> c in BoardMoves(cells, size) && c !in remaining
        invariant forall i :: 0 <= i < |moves| ==> moves[i] in cells && cells[moves[i]] == Empty
        invariant NoDuplicates(moves)
        decreases |remaining|
      {
        var c :| c in remaining;
        var adjacent := HasAdjacentOccupiedCell(c);
        if cells[c] == Empty && adjacent {
          moves := moves + [c];
        }
        remaining := remaining - {c};
      }
    }

    method IsFull() returns (full: bool)
      ensures full <==> NoEmpty(cells)
    {
      var remaining := cells.Keys;
      while remaining != {}
        invariant remaining <= cells.Keys
        invariant forall c :: c in cells && c !in remaining ==> cells[c] != Empty
        decreases |remaining|
      {
        var c :| c in remaining;
        if cells[c] == Empty {
          return false;
        }
        remaining := remaining - {c};
      }
      return true;
    }

    /**
     * copy: a fresh board, then setState for every stored cell. The fresh board
     * already holds X at (4,4), so setState fails there whatever order the cells come in.
     */
    method Copy() returns (r: Result<BoardImpl>)
      requires Valid()
      ensures r == Failure(IllegalArgument)
    {
      var copy := new BoardImpl(size);
      var remaining := cells.Keys;
      while remaining != {}
        invariant remaining <= cells.Keys
        invariant copy.cells.Keys == cells.Keys
        invariant HexCoordinate(4, 4) in remaining && copy.cells[HexCoordinate(4, 4)] == X
        decreases |remaining|
      {
        var c :| c in remaining;
        var o := copy.SetState(c.q, c.r, cells[c]);
        if o.Fail? {
          return Failure(o.error);
        }
        remaining := remaining - {c};
      }
      assert false;
      r := Success(copy);
    }
  }
}
