/**
 * HintManager: for a cell and a player it counts the pieces a move there would flip,
 * by running the eight-direction capture scan on the live board. The scan really
 * flips what it counts, so asking for a hint changes the board.
 */
module Hints {
  import opened CellStates
  import opened GamePlayers
  import opened HexCoordinates
  import opened Grid
  import opened Flips
  import opened HexBoard
  import opened HexGame

  /** The pieces the first n directions flip, each direction on the board the earlier ones left. */
  function FlipCount(cells: map<HexCoordinate, CellState>, size: int, q: int, r: int, me: CellState, n: nat): nat
    requires n <= 8
  {
    if n == 0 then 0
    else
      DirectionsAreDirections(n - 1);
      FlipCount(cells, size, q, r, me, n - 1) +
        |Flipped(FlipDirections(cells, size, q, r, me, n - 1), size, q, r, DirQ[n - 1], DirR[n - 1], me)|
  }

  /**
   * getFlippedPiecesCount: the count and the board the scan leaves. A target that fails
   * the board's isValidCell, or is not EMPTY, counts 0 and changes nothing.
   */
  function HintCount(cells: map<HexCoordinate, CellState>, size: int, q: int, r: int, p: Player)
    : (result: (nat, map<HexCoordinate, CellState>))
    requires IsValidCell(size, q, r) ==> HexCoordinate(q, r) in cells
    ensures result.1.Keys == cells.Keys
  {
    if IsValidCell(size, q, r) && cells[HexCoordinate(q, r)] == Empty then
      FlipDirectionsSpec(cells, size, q, r, StateOf(p), 8);
      (FlipCount(cells, size, q, r, StateOf(p), 8), FlipAll(cells, size, q, r, StateOf(p)))
    else (0, cells)
  }

  /** calculateValidMoves: keep, in list order, the candidates whose count is at least 2. */
  function HintFilter(cells: map<HexCoordinate, CellState>, size: int, p: Player, candidates: seq<HexCoordinate>)
    : (result: (seq<HexCoordinate>, map<HexCoordinate, CellState>))
    requires forall c :: c in candidates ==> c in cells
    ensures result.1.Keys == cells.Keys
    decreases |candidates|
  {
    if candidates == [] then ([], cells)
    else
      var c := candidates[0];
      var (count, next) := HintCount(cells, size, c.q, c.r, p);
      assert forall d :: d in candidates[1..] ==> d in candidates;
      var (rest, final) := HintFilter(next, size, p, candidates[1..]);
      ((if count >= 2 then [c] else []) + rest, final)
  }

  /** The first step of the filter. */
  lemma HintFilterUnfold(cells: map<HexCoordinate, CellState>, size: int, p: Player, candidates: seq<HexCoordinate>)
    requires candidates != [] && forall c :: c in candidates ==> c in cells
    ensures var hint := HintCount(cells, size, candidates[0].q, candidates[0].r, p);
      && (forall d :: d in candidates[1..] ==> d in hint.1)
      && HintFilter(cells, size, p, candidates) ==
           ((if hint.0 >= 2 then [candidates[0]] else []) + HintFilter(hint.1, size, p, candidates[1..]).0,
            HintFilter(hint.1, size, p, candidates[1..]).1)
  {
    assert forall d :: d in candidates[1..] ==> d in candidates;
  }

  // ---------------------------------------------------------------------------
  // The count is the number of pieces the hint flips.
  // ---------------------------------------------------------------------------

  /** The cells whose state differs between two boards with the same keys. */
  function Changed(before: map<HexCoordinate, CellState>, after: map<HexCoordinate, CellState>): set<HexCoordinate> {
    set k | k in before && k in after && before[k] != after[k]
  }

  function Elements(xs: seq<HexCoordinate>): set<HexCoordinate> {
    set x | x in xs
  }

  lemma {:induction false} ElementsCount(xs: seq<HexCoordinate>)
    requires NoDuplicates(xs)
    ensures |Elements(xs)| == |xs|
  {
    if xs != [] {
      var rest := xs[1..];
      assert NoDuplicates(rest) by {
        forall i, j | 0 <= i < j < |rest| ensures rest[i] != rest[j] {
          assert rest[i] == xs[i + 1] && rest[j] == xs[j + 1];
        }
      }
      ElementsCount(rest);
      assert xs[0] !in Elements(rest) by {
        forall i | 0 <= i < |rest| ensures rest[i] != xs[0] {
          assert rest[i] == xs[i + 1];
        }
      }
      assert Elements(xs) == {xs[0]} + Elements(rest) by {
        assert forall x :: x in xs <==> x == xs[0] || x in rest;
      }
    }
  }

  /** Cells along one direction at distinct distances are distinct. */
  lemma StepsDistinct(q: int, r: int, dq: int, dr: int, i: int, j: int)
    requires IsDirection(dq, dr) && i != j
    ensures Step(q, r, dq, dr, i) != Step(q, r, dq, dr, j)
  {
  }

  /** A run never visits a cell twice. */
  lemma RunDistinct(cells: map<HexCoordinate, CellState>, size: int, q: int, r: int, dq: int, dr: int, opp: CellState)
    requires IsDirection(dq, dr)
    ensures NoDuplicates(Run(cells, size, q, r, dq, dr, opp))
  {
    var run := Run(cells, size, q, r, dq, dr, opp);
    RunSpec(cells, size, q, r, dq, dr, opp);
    forall i, j | 0 <= i < j < |run| ensures run[i] != run[j] {
      StepsDistinct(q, r, dq, dr, i + 1, j + 1);
    }
  }

  /** One direction changes exactly the cells it flips, and flips each once. */
  lemma DirectionChanges(cells: map<HexCoordinate, CellState>, size: int, q: int, r: int, dq: int, dr: int, me: CellState)
    requires IsDirection(dq, dr)
    ensures Changed(cells, FlipDirection(cells, size, q, r, dq, dr, me)) == Elements(Flipped(cells, size, q, r, dq, dr, me))
    ensures |Changed(cells, FlipDirection(cells, size, q, r, dq, dr, me))| == |Flipped(cells, size, q, r, dq, dr, me)|
  {
    var opp := OpponentState(me);
    var run := Run(cells, size, q, r, dq, dr, opp);
    var after := FlipDirection(cells, size, q, r, dq, dr, me);
    RunSpec(cells, size, q, r, dq, dr, opp);
    RunDistinct(cells, size, q, r, dq, dr, opp);
    forall k ensures k in Changed(cells, after) <==> k in Flipped(cells, size, q, r, dq, dr, me) {
      FlipDirectionSpec(cells, size, q, r, dq, dr, me, k);
      if k in run {
        var i :| 0 <= i < |run| && run[i] == k;
        assert Walkable(cells, size, run[i], opp);
      }
    }
    ElementsCount(Flipped(cells, size, q, r, dq, dr, me));
  }

  /** Two capture steps in a row change disjoint sets of cells, and together change their union. */
  lemma ChangedCompose(a: map<HexCoordinate, CellState>, b: map<HexCoordinate, CellState>, c: map<HexCoordinate, CellState>,
                       size: int, me: CellState)
    requires FlipStep(a, b, size, me) && FlipStep(b, c, size, me)
    ensures Changed(a, c) == Changed(a, b) + Changed(b, c)
    ensures Changed(a, b) !! Changed(b, c)
    ensures |Changed(a, c)| == |Changed(a, b)| + |Changed(b, c)|
  {
    assert Changed(a, c) == Changed(a, b) + Changed(b, c);
  }

  /** Direction n-1 changes cells the first n-1 directions left alone. */
  lemma ChangedByDirection(cells: map<HexCoordinate, CellState>, size: int, q: int, r: int, me: CellState, n: nat)
    requires 0 < n <= 8
    ensures |Changed(cells, FlipDirections(cells, size, q, r, me, n))| ==
      |Changed(cells, FlipDirections(cells, size, q, r, me, n - 1))| +
      |Changed(FlipDirections(cells, size, q, r, me, n - 1), FlipDirections(cells, size, q, r, me, n))|
  {
    DirectionsAreDirections(n - 1);
    var mid := FlipDirections(cells, size, q, r, me, n - 1);
    FlipDirectionsSpec(cells, size, q, r, me, n - 1);
    FlipDirectionIsFlipStep(mid, size, q, r, DirQ[n - 1], DirR[n - 1], me);
    ChangedCompose(cells, mid, FlipDirections(cells, size, q, r, me, n), size, me);
  }

  /** The first n directions together flip exactly as many cells as they count. */
  lemma {:induction false} FlipCountIsChanged(cells: map<HexCoordinate, CellState>, size: int, q: int, r: int,
                                              me: CellState, n: nat)
    requires n <= 8
    ensures FlipCount(cells, size, q, r, me, n) == |Changed(cells, FlipDirections(cells, size, q, r, me, n))|
  {
    if n == 0 {
      assert Changed(cells, cells) == {};
    } else {
      DirectionsAreDirections(n - 1);
      var mid := FlipDirections(cells, size, q, r, me, n - 1);
      ChangedByDirection(cells, size, q, r, me, n);
      FlipCountIsChanged(cells, size, q, r, me, n - 1);
      DirectionChanges(mid, size, q, r, DirQ[n - 1], DirR[n - 1], me);
    }
  }

  /**
   * The count is the number of cells the hint changes; each changed cell was an
   * opponent piece inside [0,size)^2 and now holds the player's colour. A non-zero
   * count needs a target that passes isValidCell and is EMPTY, and the target itself
   * is never changed.
   */
  lemma HintCountSpec(cells: map<HexCoordinate, CellState>, size: int, q: int, r: int, p: Player)
    requires IsValidCell(size, q, r) ==> HexCoordinate(q, r) in cells
    ensures var (count, after) := HintCount(cells, size, q, r, p);
      && count == |Changed(cells, after)|
      && FlipStep(cells, after, size, StateOf(p))
      && (count > 0 ==> IsValidCell(size, q, r) && cells[HexCoordinate(q, r)] == Empty)
      && HexCoordinate(q, r) !in Changed(cells, after)
  {
    if IsValidCell(size, q, r) && cells[HexCoordinate(q, r)] == Empty {
      FlipCountIsChanged(cells, size, q, r, StateOf(p), 8);
      FlipDirectionsSpec(cells, size, q, r, StateOf(p), 8);
    } else {
      assert Changed(cells, cells) == {};
    }
  }

  /** Capture steps compose. */
  lemma FlipStepTransitive(a: map<HexCoordinate, CellState>, b: map<HexCoordinate, CellState>,
                           c: map<HexCoordinate, CellState>, size: int, me: CellState)
    requires FlipStep(a, b, size, me) && FlipStep(b, c, size, me)
    ensures FlipStep(a, c, size, me)
  {
  }

  /**
   * calculateValidMoves keeps candidates in their order, only ones that pass isValidCell,
   * and leaves a board where each change turned an opponent piece into the player's;
   * EMPTY cells stay EMPTY.
   */
  lemma {:induction false} HintFilterSpec(cells: map<HexCoordinate, CellState>, size: int, p: Player,
                                          candidates: seq<HexCoordinate>)
    requires forall c :: c in candidates ==> c in cells
    ensures var (kept, after) := HintFilter(cells, size, p, candidates);
      && (forall c :: c in kept ==> c in candidates && IsValidCell(size, c.q, c.r))
      && |kept| <= |candidates|
      && FlipStep(cells, after, size, StateOf(p))
    decreases |candidates|
  {
    if candidates != [] {
      var c := candidates[0];
      var (count, next) := HintCount(cells, size, c.q, c.r, p);
      HintCountSpec(cells, size, c.q, c.r, p);
      assert forall d :: d in candidates[1..] ==> d in candidates;
      HintFilterSpec(next, size, p, candidates[1..]);
      var (rest, final) := HintFilter(next, size, p, candidates[1..]);
      FlipStepTransitive(cells, next, final, size, StateOf(p));
    }
  }

  class HintManager {
    const model: ReversiGame

    constructor(model: ReversiGame)
      ensures this.model == model
    {
      this.model := model;
    }

    /** getFlippedPiecesCount: the count and the board are HintCount's. The target must exist when it passes isValidCell. */
    method GetFlippedPiecesCount(c: HexCoordinate, currentPlayer: Player) returns (count: int)
      requires IsValidCell(model.board.size, c.q, c.r) ==> c in model.board.cells
      modifies model.board
      ensures (count, model.board.cells) == HintCount(old(model.board.cells), model.board.size, c.q, c.r, currentPlayer)
    {
      var q, r := c.q, c.r;
      var flippedCount := 0;
      var currentPlayerState := if currentPlayer == Black then X else O;
      var opponentState := if currentPlayer == Black then O else X;
      if IsValidCell(model.board.size, q, r) && model.board.cells[HexCoordinate(q, r)] == Empty {
        ghost var start := model.board.cells;
        for i := 0 to 8
          invariant model.board.cells == FlipDirections(start, model.board.size, q, r, currentPlayerState, i)
          invariant flippedCount == FlipCount(start, model.board.size, q, r, currentPlayerState, i)
        {
          DirectionsAreDirections(i);
          var n := GetFlipDirection(q, r, DirQ[i], DirR[i], currentPlayerState, opponentState);
          flippedCount := flippedCount + n;
        }
        return flippedCount;
      } else {
        return 0;
      }
    }

    /** getFlipDirection: flips the bracketed run and returns its length; 0 and no change when unbracketed. */
    method GetFlipDirection(q: int, r: int, dq: int, dr: int, currentPlayerState: CellState, opponentState: CellState)
      returns (count: int)
      requires IsDirection(dq, dr) && opponentState == OpponentState(currentPlayerState)
      modifies model.board
      ensures model.board.cells == FlipDirection(old(model.board.cells), model.board.size, q, r, dq, dr, currentPlayerState)
      ensures count == |Flipped(old(model.board.cells), model.board.size, q, r, dq, dr, currentPlayerState)|
    {
      var neighbors, next := CollectRun(model.board.cells, model.board.size, q, r, dq, dr, opponentState);
      RunSpec(model.board.cells, model.board.size, q, r, dq, dr, opponentState);
      if InSquare(model.board.size, next.q, next.r) && next in model.board.cells && model.board.cells[next] == currentPlayerState {
        model.FlipRun(neighbors, currentPlayerState);
        return |neighbors|;
      } else {
        return 0;
      }
    }

    /**
     * One step of the filter: ask for the first candidate's count and keep it when it is
     * at least 2. What is kept, followed by what the rest of the list will keep, stays
     * the filter's result.
     */
    method Consider(candidates: seq<HexCoordinate>, kept: seq<HexCoordinate>,
                    ghost whole: (seq<HexCoordinate>, map<HexCoordinate, CellState>))
      returns (next: seq<HexCoordinate>)
      requires candidates != [] && forall c :: c in candidates ==> c in model.board.cells
      requires whole.0 == kept + HintFilter(model.board.cells, model.board.size, model.currentPlayer, candidates).0
      requires whole.1 == HintFilter(model.board.cells, model.board.size, model.currentPlayer, candidates).1
      modifies model.board
      ensures model.board.cells.Keys == old(model.board.cells).Keys
      ensures forall c :: c in candidates[1..] ==> c in model.board.cells
      ensures whole.0 == next + HintFilter(model.board.cells, model.board.size, model.currentPlayer, candidates[1..]).0
      ensures whole.1 == HintFilter(model.board.cells, model.board.size, model.currentPlayer, candidates[1..]).1
    {
      var c := candidates[0];
      HintFilterUnfold(model.board.cells, model.board.size, model.currentPlayer, candidates);
      ghost var hint := HintCount(model.board.cells, model.board.size, c.q, c.r, model.currentPlayer);
      var count := GetFlippedPiecesCount(c, model.currentPlayer);
      ghost var rest := HintFilter(model.board.cells, model.board.size, model.currentPlayer, candidates[1..]);
      if count >= 2 {
        next := kept + [c];
        assert kept + ([c] + rest.0) == next + rest.0;
      } else {
        next := kept;
        assert [] + rest.0 == rest.0;
      }
    }

    /**
     * calculateValidMoves: each candidate of board.getValidMoves is asked for its count in
     * list order, on the board the earlier requests left, and kept when the count is at
     * least 2. `candidates` names the list getValidMoves returned.
     */
    method CalculateValidMoves() returns (kept: seq<HexCoordinate>, ghost candidates: seq<HexCoordinate>)
      modifies model.board
      ensures forall c :: c in candidates <==> c in BoardMoves(old(model.board.cells), model.board.size)
      ensures (kept, model.board.cells) == HintFilter(old(model.board.cells), model.board.size, model.currentPlayer, candidates)
    {
      var validMoves := model.board.GetValidMoves();
      candidates := validMoves;
      ghost var start := model.board.cells;
      assert forall c :: c in validMoves ==> c in start;
      assert validMoves[0..] == validMoves;
      ghost var whole := HintFilter(start, model.board.size, model.currentPlayer, validMoves);
      kept := [];
      assert kept + whole.0 == whole.0;
      for i := 0 to |validMoves|
        invariant model.board.cells.Keys == start.Keys
        invariant forall c :: c in validMoves[i..] ==> c in model.board.cells
        invariant whole.0 == kept + HintFilter(model.board.cells, model.board.size, model.currentPlayer, validMoves[i..]).0
        invariant whole.1 == HintFilter(model.board.cells, model.board.size, model.currentPlayer, validMoves[i..]).1
      {
        assert validMoves[i..][1..] == validMoves[i + 1..];
        kept := Consider(validMoves[i..], kept, whole);
      }
      assert kept + [] == kept;
    }
  }
}
