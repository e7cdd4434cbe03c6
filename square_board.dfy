/** The square board: size x size cells keyed by (column, row). */
module SquareBoards {
  import opened Outcomes
  import opened CellStates
  import opened HexCoordinates
  import opened Grid

  /** isValidCell: the coordinate lies in [0,size)^2. */
  predicate IsValidCell(size: int, q: int, r: int) {
    InSquare(size, q, r)
  }

  /** The coordinates createBoard stores, and exactly those isValidCell accepts. */
  function SquareKeys(size: int): (keys: set<HexCoordinate>)
    ensures forall c: HexCoordinate :: c in keys <==> IsValidCell(size, c.q, c.r)
  {
    var keys := set q: int, r: int | 0 <= q < size && 0 <= r < size :: HexCoordinate(q, r);
    assert forall c: HexCoordinate :: InSquare(size, c.q, c.r) ==> c == HexCoordinate(c.q, c.r) && c in keys;
    keys
  }

  function EmptySquare(size: int): map<HexCoordinate, CellState> {
    map c | c in SquareKeys(size) :: Empty
  }

  /** The board the constructor leaves: O at (3,4) and (4,3), X at (4,4) and (3,3). */
  function SquareStart(size: int): map<HexCoordinate, CellState> {
    EmptySquare(size)[HexCoordinate(3, 4) := O][HexCoordinate(4, 4) := X]
                     [HexCoordinate(4, 3) := O][HexCoordinate(3, 3) := X]
  }

  /** Each of the constructor's four setState calls finds its cell present and EMPTY. */
  lemma PlacementsStartEmpty(size: int)
    requires size >= 5
    ensures var e := EmptySquare(size);
      && HexCoordinate(3, 4) in e && e[HexCoordinate(3, 4)] == Empty
      && HexCoordinate(4, 4) in e && e[HexCoordinate(4, 4)] == Empty
      && HexCoordinate(4, 3) in e && e[HexCoordinate(4, 3)] == Empty
      && HexCoordinate(3, 3) in e && e[HexCoordinate(3, 3)] == Empty
  {
    assert InSquare(size, 3, 4) && InSquare(size, 4, 4) && InSquare(size, 4, 3) && InSquare(size, 3, 3);
  }

  /** The coordinates createBoard has stored before reaching (col, row). */
  predicate StoredBefore(size: int, c: HexCoordinate, row: int, col: int) {
    InSquare(size, c.q, c.r) && (c.r < row || (c.r == row && c.q < col))
  }

  /** The four neighbours hasAdjacentOccupiedCell inspects: top, bottom, left, right. */
  function Orthogonal(c: HexCoordinate): seq<HexCoordinate> {
    [HexCoordinate(c.q, c.r - 1), HexCoordinate(c.q, c.r + 1), HexCoordinate(c.q - 1, c.r), HexCoordinate(c.q + 1, c.r)]
  }

  predicate OccupiedNeighbor(cells: map<HexCoordinate, CellState>, size: int, n: HexCoordinate) {
    InSquare(size, n.q, n.r) && n in cells && cells[n] != Empty
  }

  predicate AdjacentOccupied(cells: map<HexCoordinate, CellState>, size: int, c: HexCoordinate) {
    exists i :: 0 <= i < 4 && OccupiedNeighbor(cells, size, Orthogonal(c)[i])
  }

  /** The cells getValidMoves reports: EMPTY with an occupied in-bounds orthogonal neighbour. */
  function BoardMoves(cells: map<HexCoordinate, CellState>, size: int): (ms: set<HexCoordinate>)
    ensures forall c :: c in ms ==> c in cells && cells[c] == Empty
  {
    set c | c in cells && cells[c] == Empty && AdjacentOccupied(cells, size, c)
  }

  predicate NoEmpty(cells: map<HexCoordinate, CellState>) {
    forall c :: c in cells ==> cells[c] != Empty
  }

  /** A full board offers no moves. */
  lemma FullHasNoMoves(cells: map<HexCoordinate, CellState>, size: int)
    requires NoEmpty(cells)
    ensures BoardMoves(cells, size) == {}
  {
  }

  /** The four centre pieces of the starting layout. */
  function CentrePieces(): set<HexCoordinate> {
    {HexCoordinate(3, 4), HexCoordinate(4, 4), HexCoordinate(4, 3), HexCoordinate(3, 3)}
  }

  /** The eight empty cells orthogonally next to the centre block. */
  function StartMoveSet(): set<HexCoordinate> {
    {HexCoordinate(3, 2), HexCoordinate(4, 2), HexCoordinate(3, 5), HexCoordinate(4, 5),
     HexCoordinate(2, 3), HexCoordinate(2, 4), HexCoordinate(5, 3), HexCoordinate(5, 4)}
  }

  /** The only occupied cells of the starting layout are the four centre pieces. */
  lemma OccupiedAtStart(size: int, n: HexCoordinate)
    ensures n in SquareStart(size) && SquareStart(size)[n] != Empty <==> n in CentrePieces()
  {
  }

  /** A cell outside the centre block with an orthogonal neighbour inside it is one of the eight. */
  lemma NextToCentre(c: HexCoordinate, i: int)
    requires 0 <= i < 4 && Orthogonal(c)[i] in CentrePieces() && c !in CentrePieces()
    ensures c in StartMoveSet()
  {
    if i == 0 {
      assert c.q in {3, 4} && c.r - 1 in {3, 4};
    } else if i == 1 {
      assert c.q in {3, 4} && c.r + 1 in {3, 4};
    } else if i == 2 {
      assert c.q - 1 in {3, 4} && c.r in {3, 4};
    } else {
      assert c.q + 1 in {3, 4} && c.r in {3, 4};
    }
  }

  /** Each of the eight cells is a move on the starting layout. */
  lemma StartMovesPresent(size: int, c: HexCoordinate)
    requires size >= 6 && c in StartMoveSet()
    ensures c in BoardMoves(SquareStart(size), size)
  {
    var s := SquareStart(size);
    PlacementsStartEmpty(size);
    assert InSquare(size, c.q, c.r);
    OccupiedAtStart(size, c);
    if c.r == 2 {
      OccupiedAtStart(size, Orthogonal(c)[1]);
      assert OccupiedNeighbor(s, size, Orthogonal(c)[1]);
    } else if c.r == 5 {
      OccupiedAtStart(size, Orthogonal(c)[0]);
      assert OccupiedNeighbor(s, size, Orthogonal(c)[0]);
    } else if c.q == 2 {
      OccupiedAtStart(size, Orthogonal(c)[3]);
      assert OccupiedNeighbor(s, size, Orthogonal(c)[3]);
    } else {
      OccupiedAtStart(size, Orthogonal(c)[2]);
      assert OccupiedNeighbor(s, size, Orthogonal(c)[2]);
    }
  }

  /** On the starting layout the moves are the eight empty cells orthogonally next to the centre block. */
  lemma StartMoves(size: int, c: HexCoordinate)
    requires size >= 6
    ensures c in BoardMoves(SquareStart(size), size) <==> c in StartMoveSet()
  {
    var s := SquareStart(size);
    if c in BoardMoves(s, size) {
      var i :| 0 <= i < 4 && OccupiedNeighbor(s, size, Orthogonal(c)[i]);
      OccupiedAtStart(size, Orthogonal(c)[i]);
      OccupiedAtStart(size, c);
      NextToCentre(c, i);
    }
    if c in StartMoveSet() {
      StartMovesPresent(size, c);
    }
  }

  class SquareBoard {
    const size: int
    var cells: map<HexCoordinate, CellState>

    /** The key set is [0,size)^2, and the constructor's precondition held. */
    ghost predicate Valid()
      reads this
    {
      size >= 5 && cells.Keys == SquareKeys(size)
    }

    /** A size below 5 makes the constructor's setState(4, 4, X) reach a missing cell. */
    constructor(size: int)
      requires size >= 5
      ensures this.size == size
      ensures Valid() && cells == SquareStart(size)
      ensures |cells| == size * size
    {
      this.size := size;
      cells := map[];
      new;
      CreateBoard();
      PlacementsStartEmpty(size);
      ghost var e := cells;
      var o := SetState(3, 4, O);
      ghost var e1 := e[HexCoordinate(3, 4) := O];
      assert cells == e1 && e1[HexCoordinate(4, 4)] == Empty;
      o := SetState(4, 4, X);
      ghost var e2 := e1[HexCoordinate(4, 4) := X];
      assert cells == e2 && e2[HexCoordinate(4, 3)] == Empty;
      o := SetState(4, 3, O);
      ghost var e3 := e2[HexCoordinate(4, 3) := O];
      assert cells == e3 && e3[HexCoordinate(3, 3)] == Empty;
      o := SetState(3, 3, X);
    }

    /** createBoard: rows outer, columns inner, every cell EMPTY. */
    method CreateBoard()
      requires cells == map[] && size >= 0
      modifies this
      ensures cells == EmptySquare(size)
      ensures |cells| == size * size
    {
      var row := 0;
      while row < size
        invariant 0 <= row <= size
        invariant forall c :: c in cells <==> StoredBefore(size, c, row, 0)
        invariant forall c :: c in cells ==> cells[c] == Empty
        invariant |cells| == row * size
      {
        var col := 0;
        while col < size
          invariant 0 <= col <= size
          invariant forall c :: c in cells <==> StoredBefore(size, c, row, col)
          invariant forall c :: c in cells ==> cells[c] == Empty
          invariant |cells| == row * size + col
        {
          var c := HexCoordinate(col, row);
          assert c !in cells;
          cells := cells[c := Empty];
          col := col + 1;
        }
        assert (row + 1) * size == row * size + size;
        row := row + 1;
      }
      assert cells.Keys == EmptySquare(size).Keys;
    }

    method Move(q: int, r: int, state: CellState)
      requires HexCoordinate(q, r) in cells
      modifies this
      ensures cells == old(cells)[HexCoordinate(q, r) := state]
    {
      cells := cells[HexCoordinate(q, r) := state];
    }

    method SetState(q: int, r: int, state: CellState) returns (o: Outcome)
      requires HexCoordinate(q, r) in cells
      modifies this
      ensures old(cells)[HexCoordinate(q, r)] == Empty ==> o == Pass && cells == old(cells)[HexCoordinate(q, r) := state]
      ensures old(cells)[HexCoordinate(q, r)] != Empty ==> o == Fail(IllegalArgument) && cells == old(cells)
    {
      if cells[HexCoordinate(q, r)] != Empty {
        return Fail(IllegalArgument);
      }
      cells := cells[HexCoordinate(q, r) := state];
      o := Pass;
    }

    function GetCellStateAt(c: HexCoordinate): (s: Option<CellState>)
      reads this
      ensures s.None? <==> c !in cells
      ensures s.Some? ==> s.value == cells[c]
    {
      if c in cells then Some(cells[c]) else None
    }

    /** On a valid board the in-bounds orthogonal neighbours of any coordinate are stored. */
    lemma StoredAround(c: HexCoordinate)
      requires Valid()
      ensures forall n :: n in Orthogonal(c) && InSquare(size, n.q, n.r) ==> n in cells
    {
    }

    /** The four checks in order: top, bottom, left, right. */
    method HasAdjacentOccupiedCell(c: HexCoordinate) returns (b: bool)
      requires forall n :: n in Orthogonal(c) && InSquare(size, n.q, n.r) ==> n in cells
      ensures b == AdjacentOccupied(cells, size, c)
    {
      var q, r := c.q, c.r;
      var n := Orthogonal(c);
      if InSquare(size, q, r - 1) && cells[HexCoordinate(q, r - 1)] != Empty {
        assert OccupiedNeighbor(cells, size, n[0]);
        return true;
      }
      if InSquare(size, q, r + 1) && cells[HexCoordinate(q, r + 1)] != Empty {
        assert OccupiedNeighbor(cells, size, n[1]);
        return true;
      }
      if InSquare(size, q - 1, r) && cells[HexCoordinate(q - 1, r)] != Empty {
        assert OccupiedNeighbor(cells, size, n[2]);
        return true;
      }
      b := InSquare(size, q + 1, r) && cells[HexCoordinate(q + 1, r)] != Empty;
      assert !OccupiedNeighbor(cells, size, n[0]) && !OccupiedNeighbor(cells, size, n[1]);
      assert !OccupiedNeighbor(cells, size, n[2]);
      assert b ==> OccupiedNeighbor(cells, size, n[3]);
    }

    method GetValidMoves() returns (moves: seq<HexCoordinate>)
      requires Valid()
      ensures forall c :: c in moves <==> c in BoardMoves(cells, size)
      ensures forall i :: 0 <= i < |moves| ==> moves[i] in cells && cells[moves[i]] == Empty
      ensures NoDuplicates(moves)
    {
      moves := [];
      var remaining := cells.Keys;
      while remaining != {}
        invariant remaining <= cells.Keys
        invariant forall c :: c in moves <==> c in BoardMoves(cells, size) && c !in remaining
        invariant forall i :: 0 <= i < |moves| ==> moves[i] in cells && cells[moves[i]] == Empty
        invariant NoDuplicates(moves)
        decreases |remaining|
      {
        var c :| c in remaining;
        var isMove := IsMoveCell(c);
        if isMove {
          moves := moves + [c];
        }
        remaining := remaining - {c};
      }
    }

    /** The test getValidMoves applies to each cell: EMPTY, and only then the neighbour checks. */
    method IsMoveCell(c: HexCoordinate) returns (b: bool)
      requires Valid() && c in cells
      ensures b <==> c in BoardMoves(cells, size)
    {
      if cells[c] != Empty {
        return false;
      }
      StoredAround(c);
      b := HasAdjacentOccupiedCell(c);
    }

    method IsFull() returns (full: bool)
      ensures full <==> NoEmpty(cells)
    {
      var remaining := cells.Keys;
      while remaining != {}
        invariant remaining <= cells.Keys
        invariant forall c :: c in cells && c !in remaining ==> cells[c] != Empty
        decreases |remaining|
      {
        var c :| c in remaining;
        if cells[c] == Empty {
          return false;
        }
        remaining := remaining - {c};
      }
      return true;
    }

    /** copy: the fresh board already holds X at (4,4), so setState fails there. */
    method Copy() returns (r: Result<SquareBoard>)
      requires Valid()
      ensures r == Failure(IllegalArgument)
    {
      var copy := new SquareBoard(size);
      var remaining := cells.Keys;
      while remaining != {}
        invariant remaining <= cells.Keys
        invariant copy.cells.Keys == cells.Keys
        invariant HexCoordinate(4, 4) in remaining && copy.cells[HexCoordinate(4, 4)] == X
        decreases |remaining|
      {
        var c :| c in remaining;
        var o := copy.SetState(c.q, c.r, cells[c]);
        if o.Fail? {
          return Failure(o.error);
        }
        remaining := remaining - {c};
      }
      assert false;
      r := Success(copy);
    }
  }
}
