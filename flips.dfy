/**
 * The directional capture scan shared by ReversiGame.getFlipDirection,
 * SquareReversiGame.flipPiecesInDirection and HintManager.getFlipDirection:
 * from the move, walk one direction over consecutive opponent cells inside
 * [0,size)^2; if the walk stops on a cell of the mover's colour, the run flips.
 */
module Flips {
  import opened CellStates
  import opened GamePlayers
  import opened HexCoordinates
  import opened Grid

  /** The eight direction vectors, in the order the source lists them. */
  const DirQ: seq<int> := [-1, 1, 0, 0, -1, -1, 1, 1]
  const DirR: seq<int> := [0, 0, -1, 1, -1, 1, -1, 1]

  predicate IsDirection(dq: int, dr: int) {
    -1 <= dq <= 1 && -1 <= dr <= 1 && (dq != 0 || dr != 0)
  }

  lemma DirectionsAreDirections(i: nat)
    requires i < 8
    ensures IsDirection(DirQ[i], DirR[i])
  {
  }

  /** k * d for a unit step d, written without multiplication. */
  function Offset(d: int, k: int): int {
    if d == 1 then k else if d == -1 then -k else 0
  }

  /** The cell k steps from (q, r) in direction (dq, dr). */
  function Step(q: int, r: int, dq: int, dr: int, k: int): HexCoordinate {
    HexCoordinate(q + Offset(dq, k), r + Offset(dr, k))
  }

  /** Steps left before a walk in direction (dq, dr) must leave [0,size)^2. */
  function Budget(size: int, q: int, r: int, dq: int, dr: int): int {
    if dq == 1 then size - q else if dq == -1 then q else if dr == 1 then size - r else r
  }

  /** Holds an opponent piece and can be walked over. */
  predicate Walkable(cells: map<HexCoordinate, CellState>, size: int, c: HexCoordinate, opp: CellState) {
    InSquare(size, c.q, c.r) && c in cells && cells[c] == opp
  }

  /** k steps from the next cell are k + 1 steps from this one. */
  lemma StepShift(q: int, r: int, dq: int, dr: int, k: int)
    requires IsDirection(dq, dr)
    ensures Step(q + dq, r + dr, dq, dr, k) == Step(q, r, dq, dr, k + 1)
  {
  }

  /** The maximal run of opponent cells next to (q, r) in direction (dq, dr). */
  function Run(cells: map<HexCoordinate, CellState>, size: int, q: int, r: int, dq: int, dr: int, opp: CellState)
    : (run: seq<HexCoordinate>)
    requires IsDirection(dq, dr)
    decreases Budget(size, q, r, dq, dr)
  {
    var n := HexCoordinate(q + dq, r + dr);
    if Walkable(cells, size, n, opp) then [n] + Run(cells, size, n.q, n.r, dq, dr, opp) else []
  }

  /**
   * The run is the i-th cells along the direction, i = 1, 2, ..., each an opponent
   * piece inside the square, and it is maximal: the cell after it is not.
   */
  lemma {:induction false} RunSpec(cells: map<HexCoordinate, CellState>, size: int, q: int, r: int, dq: int, dr: int,
                                   opp: CellState)
    requires IsDirection(dq, dr)
    ensures var run := Run(cells, size, q, r, dq, dr, opp);
      && (forall i :: 0 <= i < |run| ==> run[i] == Step(q, r, dq, dr, i + 1) && Walkable(cells, size, run[i], opp))
      && RunStop(cells, size, q, r, dq, dr, opp) == Step(q, r, dq, dr, |run| + 1)
      && !Walkable(cells, size, RunStop(cells, size, q, r, dq, dr, opp), opp)
    decreases Budget(size, q, r, dq, dr)
  {
    var n := HexCoordinate(q + dq, r + dr);
    if Walkable(cells, size, n, opp) {
      var rest := Run(cells, size, n.q, n.r, dq, dr, opp);
      RunSpec(cells, size, n.q, n.r, dq, dr, opp);
      var run := [n] + rest;
      assert Run(cells, size, q, r, dq, dr, opp) == run;
      forall i | 0 <= i < |run|
        ensures run[i] == Step(q, r, dq, dr, i + 1) && Walkable(cells, size, run[i], opp)
      {
        if i > 0 {
          assert run[i] == rest[i - 1];
          StepShift(q, r, dq, dr, i);
        }
      }
      StepShift(q, r, dq, dr, |rest| + 1);
    }
  }

  /** The first cell along the direction that is not walkable: where the walk stops. */
  function RunStop(cells: map<HexCoordinate, CellState>, size: int, q: int, r: int, dq: int, dr: int, opp: CellState)
    : HexCoordinate
    requires IsDirection(dq, dr)
    decreases Budget(size, q, r, dq, dr)
  {
    var n := HexCoordinate(q + dq, r + dr);
    if Walkable(cells, size, n, opp) then RunStop(cells, size, n.q, n.r, dq, dr, opp) else n
  }

  /** The cell where the run stops, seen from the mover. */
  function RunEnd(cells: map<HexCoordinate, CellState>, size: int, q: int, r: int, dq: int, dr: int, me: CellState)
    : HexCoordinate
    requires IsDirection(dq, dr)
  {
    RunStop(cells, size, q, r, dq, dr, OpponentState(me))
  }

  /** The run is closed by a piece of the mover's colour inside the square. */
  predicate Bracketed(cells: map<HexCoordinate, CellState>, size: int, q: int, r: int, dq: int, dr: int, me: CellState)
    requires IsDirection(dq, dr)
  {
    var e := RunEnd(cells, size, q, r, dq, dr, me);
    InSquare(size, e.q, e.r) && e in cells && cells[e] == me
  }

  /** Every listed cell set to `s`; everything else as it was. */
  function SetAll(cells: map<HexCoordinate, CellState>, cs: seq<HexCoordinate>, s: CellState)
    : map<HexCoordinate, CellState>
  {
    map k | k in cells :: if k in cs then s else cells[k]
  }

  lemma SetAllNone(cells: map<HexCoordinate, CellState>, s: CellState)
    ensures SetAll(cells, [], s) == cells
  {
  }

  /** Setting the listed cells one at a time, as the source's for-each does. */
  lemma SetAllSnoc(cells: map<HexCoordinate, CellState>, cs: seq<HexCoordinate>, c: HexCoordinate, s: CellState)
    requires c in cells
    ensures SetAll(cells, cs + [c], s) == SetAll(cells, cs, s)[c := s]
  {
    assert forall k :: k in cs + [c] <==> k in cs || k == c;
  }

  /** The cells that a move at (q, r) flips in direction (dq, dr), possibly none. */
  function Flipped(cells: map<HexCoordinate, CellState>, size: int, q: int, r: int, dq: int, dr: int, me: CellState)
    : seq<HexCoordinate>
    requires IsDirection(dq, dr)
  {
    if Bracketed(cells, size, q, r, dq, dr, me) then Run(cells, size, q, r, dq, dr, OpponentState(me)) else []
  }

  /** One direction of the capture: the bracketed run takes the mover's colour. */
  function FlipDirection(cells: map<HexCoordinate, CellState>, size: int, q: int, r: int, dq: int, dr: int, me: CellState)
    : map<HexCoordinate, CellState>
    requires IsDirection(dq, dr)
  {
    SetAll(cells, Flipped(cells, size, q, r, dq, dr, me), me)
  }

  /**
   * A cell changes in one direction exactly when it lies in the maximal opponent run
   * and that run is bracketed; it then takes the mover's colour.
   */
  lemma FlipDirectionSpec(cells: map<HexCoordinate, CellState>, size: int, q: int, r: int, dq: int, dr: int,
                          me: CellState, k: HexCoordinate)
    requires IsDirection(dq, dr)
    ensures k in FlipDirection(cells, size, q, r, dq, dr, me) <==> k in cells
    ensures k in cells ==>
      FlipDirection(cells, size, q, r, dq, dr, me)[k] ==
        if k in Run(cells, size, q, r, dq, dr, OpponentState(me)) && Bracketed(cells, size, q, r, dq, dr, me)
        then me else cells[k]
  {
  }

  /** What one direction may do to a cell: nothing, or turn an opponent piece inside the square into `me`. */
  predicate FlipStep(before: map<HexCoordinate, CellState>, after: map<HexCoordinate, CellState>,
                     size: int, me: CellState)
  {
    && after.Keys == before.Keys
    && forall k :: k in before ==>
         after[k] == before[k] ||
         (after[k] == me && before[k] == OpponentState(me) && InSquare(size, k.q, k.r))
  }

  lemma FlipDirectionIsFlipStep(cells: map<HexCoordinate, CellState>, size: int, q: int, r: int,
                                dq: int, dr: int, me: CellState)
    requires IsDirection(dq, dr)
    ensures FlipStep(cells, FlipDirection(cells, size, q, r, dq, dr, me), size, me)
    ensures HexCoordinate(q, r) in cells ==> FlipDirection(cells, size, q, r, dq, dr, me)[HexCoordinate(q, r)] == cells[HexCoordinate(q, r)]
  {
    RunSpec(cells, size, q, r, dq, dr, OpponentState(me));
  }

  /** The first n directions of flipOppenentsPieces, applied in order. */
  function FlipDirections(cells: map<HexCoordinate, CellState>, size: int, q: int, r: int, me: CellState, n: nat)
    : map<HexCoordinate, CellState>
    requires n <= 8
  {
    if n == 0 then cells
    else
      DirectionsAreDirections(n - 1);
      FlipDirection(FlipDirections(cells, size, q, r, me, n - 1), size, q, r, DirQ[n - 1], DirR[n - 1], me)
  }

  /** `flipOppenentsPieces` / `flipOpponentsPieces` after the mover's piece is at (q, r). */
  function FlipAll(cells: map<HexCoordinate, CellState>, size: int, q: int, r: int, me: CellState)
    : map<HexCoordinate, CellState>
  {
    FlipDirections(cells, size, q, r, me, 8)
  }

  /** `board.move(q, r, me)` followed by the capture. */
  function PlaceAndFlip(cells: map<HexCoordinate, CellState>, size: int, q: int, r: int, me: CellState)
    : map<HexCoordinate, CellState>
  {
    FlipAll(cells[HexCoordinate(q, r) := me], size, q, r, me)
  }

  /**
   * Capture never adds or removes a cell, never touches a cell outside [0,size)^2 or
   * the move's own cell, and only ever turns an opponent piece into the mover's.
   */
  lemma {:induction false} FlipDirectionsSpec(cells: map<HexCoordinate, CellState>, size: int, q: int, r: int,
                                              me: CellState, n: nat)
    requires n <= 8
    ensures FlipStep(cells, FlipDirections(cells, size, q, r, me, n), size, me)
    ensures HexCoordinate(q, r) in cells ==>
      FlipDirections(cells, size, q, r, me, n)[HexCoordinate(q, r)] == cells[HexCoordinate(q, r)]
  {
    if n > 0 {
      FlipDirectionsSpec(cells, size, q, r, me, n - 1);
      DirectionsAreDirections(n - 1);
      var mid := FlipDirections(cells, size, q, r, me, n - 1);
      FlipDirectionIsFlipStep(mid, size, q, r, DirQ[n - 1], DirR[n - 1], me);
    }
  }

  /** `board.move(q, r, state of p)` followed by the capture scan. */
  function Place(cells: map<HexCoordinate, CellState>, size: int, q: int, r: int, p: Player): map<HexCoordinate, CellState> {
    PlaceAndFlip(cells, size, q, r, StateOf(p))
  }

  /** Flipping preserves which cells are EMPTY, as long as the mover is a real colour. */
  lemma PlaceAndFlipSpec(cells: map<HexCoordinate, CellState>, size: int, q: int, r: int, me: CellState)
    requires HexCoordinate(q, r) in cells && me != Empty
    ensures var after := PlaceAndFlip(cells, size, q, r, me);
      && after.Keys == cells.Keys
      && after[HexCoordinate(q, r)] == me
      && (forall k :: k in cells && k != HexCoordinate(q, r) ==>
            (after[k] == Empty <==> cells[k] == Empty))
      && (forall k :: k in cells && !InSquare(size, k.q, k.r) && k != HexCoordinate(q, r) ==> after[k] == cells[k])
  {
    FlipDirectionsSpec(cells[HexCoordinate(q, r) := me], size, q, r, me, 8);
  }

  /** One step of the walk. */
  lemma RunUnfold(cells: map<HexCoordinate, CellState>, size: int, q: int, r: int, dq: int, dr: int, opp: CellState)
    requires IsDirection(dq, dr)
    ensures var n := HexCoordinate(q + dq, r + dr);
      Run(cells, size, q, r, dq, dr, opp) ==
        if Walkable(cells, size, n, opp) then [n] + Run(cells, size, n.q, n.r, dq, dr, opp) else []
    ensures var n := HexCoordinate(q + dq, r + dr);
      RunStop(cells, size, q, r, dq, dr, opp) ==
        if Walkable(cells, size, n, opp) then RunStop(cells, size, n.q, n.r, dq, dr, opp) else n
  {
  }

  /** One iteration of the walk that finds an opponent piece keeps the walk's invariant. */
  lemma WalkStep(cells: map<HexCoordinate, CellState>, size: int, q: int, r: int, dq: int, dr: int, opp: CellState,
                 run: seq<HexCoordinate>, curQ: int, curR: int)
    requires IsDirection(dq, dr)
    requires run + Run(cells, size, curQ, curR, dq, dr, opp) == Run(cells, size, q, r, dq, dr, opp)
    requires RunStop(cells, size, curQ, curR, dq, dr, opp) == RunStop(cells, size, q, r, dq, dr, opp)
    requires Walkable(cells, size, HexCoordinate(curQ + dq, curR + dr), opp)
    ensures var n := HexCoordinate(curQ + dq, curR + dr);
      && run + [n] + Run(cells, size, n.q, n.r, dq, dr, opp) == Run(cells, size, q, r, dq, dr, opp)
      && RunStop(cells, size, n.q, n.r, dq, dr, opp) == RunStop(cells, size, q, r, dq, dr, opp)
  {
    var n := HexCoordinate(curQ + dq, curR + dr);
    RunUnfold(cells, size, curQ, curR, dq, dr, opp);
    assert run + [n] + Run(cells, size, n.q, n.r, dq, dr, opp) == run + ([n] + Run(cells, size, n.q, n.r, dq, dr, opp));
  }

  /** Where the walk stops, the collected cells are the whole run and the next cell is where it stops. */
  lemma WalkEnd(cells: map<HexCoordinate, CellState>, size: int, q: int, r: int, dq: int, dr: int, opp: CellState,
                run: seq<HexCoordinate>, curQ: int, curR: int)
    requires IsDirection(dq, dr)
    requires run + Run(cells, size, curQ, curR, dq, dr, opp) == Run(cells, size, q, r, dq, dr, opp)
    requires RunStop(cells, size, curQ, curR, dq, dr, opp) == RunStop(cells, size, q, r, dq, dr, opp)
    requires !Walkable(cells, size, HexCoordinate(curQ + dq, curR + dr), opp)
    ensures run == Run(cells, size, q, r, dq, dr, opp)
    ensures HexCoordinate(curQ + dq, curR + dr) == RunStop(cells, size, q, r, dq, dr, opp)
  {
    RunUnfold(cells, size, curQ, curR, dq, dr, opp);
    assert run + [] == run;
  }

  /** The walk of the source's while loop: collects the run and returns the cell it stopped on. */
  method CollectRun(cells: map<HexCoordinate, CellState>, size: int, q: int, r: int, dq: int, dr: int, opp: CellState)
    returns (run: seq<HexCoordinate>, next: HexCoordinate)
    requires IsDirection(dq, dr)
    ensures run == Run(cells, size, q, r, dq, dr, opp)
    ensures next == RunStop(cells, size, q, r, dq, dr, opp)
  {
    run := [];
    var nextQ, nextR := q + dq, r + dr;
    ghost var curQ, curR := q, r;
    while InSquare(size, nextQ, nextR)
      invariant nextQ == curQ + dq && nextR == curR + dr
      invariant run + Run(cells, size, curQ, curR, dq, dr, opp) == Run(cells, size, q, r, dq, dr, opp)
      invariant RunStop(cells, size, curQ, curR, dq, dr, opp) == RunStop(cells, size, q, r, dq, dr, opp)
      decreases Budget(size, curQ, curR, dq, dr)
    {
      var c := HexCoordinate(nextQ, nextR);
      if c in cells && cells[c] == opp {
        WalkStep(cells, size, q, r, dq, dr, opp, run, curQ, curR);
        run := run + [c];
        curQ, curR := nextQ, nextR;
        nextQ, nextR := nextQ + dq, nextR + dr;
      } else {
        break;
      }
    }
    WalkEnd(cells, size, q, r, dq, dr, opp, run, curQ, curR);
    next := HexCoordinate(nextQ, nextR);
  }
}
