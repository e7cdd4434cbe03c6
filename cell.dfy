/** A board cell: its fixed position, its grid type and its mutable state; and the neighbour offsets of each grid. */
module Cells {
  import opened CellStates
  import opened HexCoordinates

  datatype GridType = Hexagonal | Square

  function Abs(x: int): nat {
    if x < 0 then -x else x
  }

  /** Steps between two cells of an axial hex grid. */
  function HexDistance(a: HexCoordinate, b: HexCoordinate): nat {
    (Abs(a.q - b.q) + Abs(a.r - b.r) + Abs(a.q - b.q + a.r - b.r)) / 2
  }

  /** `getCoordinateNeighboring`: the six axial neighbours, in the order the source lists them. */
  function HexNeighbors(c: HexCoordinate): seq<HexCoordinate> {
    [HexCoordinate(c.q + 1, c.r), HexCoordinate(c.q - 1, c.r),
     HexCoordinate(c.q, c.r + 1), HexCoordinate(c.q, c.r - 1),
     HexCoordinate(c.q + 1, c.r - 1), HexCoordinate(c.q - 1, c.r + 1)]
  }

  /** The six offsets are distinct and are exactly the cells one hex step away. */
  lemma HexNeighborsSpec(c: HexCoordinate)
    ensures |HexNeighbors(c)| == 6
    ensures forall i, j :: 0 <= i < j < 6 ==> HexNeighbors(c)[i] != HexNeighbors(c)[j]
    ensures forall n :: n in HexNeighbors(c) <==> HexDistance(c, n) == 1
  {
  }

  function SquareDistance(a: HexCoordinate, b: HexCoordinate): nat {
    Abs(a.q - b.q) + Abs(a.r - b.r)
  }

  /** `getSquareCoordinates`: north, south, west, east. */
  function SquareNeighbors(c: HexCoordinate): seq<HexCoordinate> {
    [HexCoordinate(c.q, c.r - 1), HexCoordinate(c.q, c.r + 1),
     HexCoordinate(c.q - 1, c.r), HexCoordinate(c.q + 1, c.r)]
  }

  /** The four offsets are distinct and are exactly the cells one orthogonal step away. */
  lemma SquareNeighborsSpec(c: HexCoordinate)
    ensures |SquareNeighbors(c)| == 4
    ensures forall i, j :: 0 <= i < j < 4 ==> SquareNeighbors(c)[i] != SquareNeighbors(c)[j]
    ensures forall n :: n in SquareNeighbors(c) <==> SquareDistance(c, n) == 1
  {
  }

  /** The offsets of a grid type. */
  function NeighborOffsets(gridType: GridType, c: HexCoordinate): seq<HexCoordinate> {
    if gridType == Hexagonal then HexNeighbors(c) else SquareNeighbors(c)
  }

  /**
   * The `getNeighbors` stream: look every offset up on the board and drop the ones
   * with no cell, keeping the offsets' order.
   */
  function NeighborsIn(offsets: seq<HexCoordinate>, cells: map<HexCoordinate, CellState>)
    : seq<(HexCoordinate, CellState)>
  {
    if offsets == [] then []
    else
      (if offsets[0] in cells then [(offsets[0], cells[offsets[0]])] else [])
      + NeighborsIn(offsets[1..], cells)
  }

  /**
   * The stream keeps at most one entry per offset: exactly the offsets that have a cell,
   * each with that cell's state, and all of them, in order, when every offset has one.
   */
  lemma {:induction false} NeighborsInSpec(offsets: seq<HexCoordinate>, cells: map<HexCoordinate, CellState>)
    ensures |NeighborsIn(offsets, cells)| <= |offsets|
    ensures forall n :: n in NeighborsIn(offsets, cells) <==> n.0 in offsets && n.0 in cells && n.1 == cells[n.0]
    ensures (forall o :: o in offsets ==> o in cells) ==>
              |NeighborsIn(offsets, cells)| == |offsets| &&
              forall i :: 0 <= i < |offsets| ==> NeighborsIn(offsets, cells)[i].0 == offsets[i]
  {
    if offsets != [] {
      NeighborsInSpec(offsets[1..], cells);
      assert forall o :: o in offsets <==> o == offsets[0] || o in offsets[1..];
      if forall o :: o in offsets ==> o in cells {
        var ns := NeighborsIn(offsets, cells);
        var rest := NeighborsIn(offsets[1..], cells);
        assert ns == [(offsets[0], cells[offsets[0]])] + rest;
        forall i | 0 <= i < |offsets|
          ensures ns[i].0 == offsets[i]
        {
          if i > 0 {
            assert ns[i] == rest[i - 1];
            assert offsets[1..][i - 1] == offsets[i];
          }
        }
      }
    }
  }

  /** The indices from `from` on of the offsets that have a cell, ascending. */
  function PresentFrom(offsets: seq<HexCoordinate>, cells: map<HexCoordinate, CellState>, from: nat): seq<nat>
    decreases |offsets| - from
  {
    if from >= |offsets| then []
    else (if offsets[from] in cells then [from] else []) + PresentFrom(offsets, cells, from + 1)
  }

  /** The indices of the offsets that have a cell, ascending. */
  function Present(offsets: seq<HexCoordinate>, cells: map<HexCoordinate, CellState>): seq<nat> {
    PresentFrom(offsets, cells, 0)
  }

  /** Entry k of the stream from index `from` on is the offset at index pos[k]. */
  lemma {:induction false} PresentFromEntries(offsets: seq<HexCoordinate>, cells: map<HexCoordinate, CellState>, from: nat)
    requires from <= |offsets|
    ensures var ns, pos := NeighborsIn(offsets[from..], cells), PresentFrom(offsets, cells, from);
      && |pos| == |ns|
      && forall k :: 0 <= k < |pos| ==>
           from <= pos[k] < |offsets| && offsets[pos[k]] in cells && ns[k] == (offsets[pos[k]], cells[offsets[pos[k]]])
    decreases |offsets| - from
  {
    if from < |offsets| {
      PresentFromEntries(offsets, cells, from + 1);
      assert offsets[from..][0] == offsets[from] && offsets[from..][1..] == offsets[from + 1..];
    }
  }

  /** The indices from `from` on lie at or after it and ascend. */
  lemma {:induction false} PresentFromAscending(offsets: seq<HexCoordinate>, cells: map<HexCoordinate, CellState>, from: nat)
    ensures forall k :: 0 <= k < |PresentFrom(offsets, cells, from)| ==> from <= PresentFrom(offsets, cells, from)[k]
    ensures forall i, j :: 0 <= i < j < |PresentFrom(offsets, cells, from)| ==>
      PresentFrom(offsets, cells, from)[i] < PresentFrom(offsets, cells, from)[j]
    decreases |offsets| - from
  {
    if from < |offsets| {
      PresentFromAscending(offsets, cells, from + 1);
      var rest := PresentFrom(offsets, cells, from + 1);
      var pos := PresentFrom(offsets, cells, from);
      if offsets[from] in cells {
        assert pos == [from] + rest;
        forall i, j | 0 <= i < j < |pos|
          ensures pos[i] < pos[j]
        {
          assert pos[j] == rest[j - 1];
          if i > 0 {
            assert pos[i] == rest[i - 1];
          }
        }
      } else {
        assert pos == rest;
      }
    }
  }

  /** Every offset from `from` on that has a cell has its index listed. */
  lemma {:induction false} PresentFromComplete(offsets: seq<HexCoordinate>, cells: map<HexCoordinate, CellState>, from: nat)
    ensures forall a :: from <= a < |offsets| && offsets[a] in cells ==> a in PresentFrom(offsets, cells, from)
    decreases |offsets| - from
  {
    if from < |offsets| {
      PresentFromComplete(offsets, cells, from + 1);
    }
  }

  /**
   * The stream is the offsets that have a cell, in offset order: entry i is the offset
   * at index pos[i], the indices ascend, and every offset with a cell has one.
   */
  lemma NeighborsInOrder(offsets: seq<HexCoordinate>, cells: map<HexCoordinate, CellState>)
    ensures var ns, pos := NeighborsIn(offsets, cells), Present(offsets, cells);
      && |pos| == |ns|
      && (forall i :: 0 <= i < |pos| ==>
            pos[i] < |offsets| && offsets[pos[i]] in cells && ns[i] == (offsets[pos[i]], cells[offsets[pos[i]]]))
      && (forall i, j :: 0 <= i < j < |pos| ==> pos[i] < pos[j])
      && (forall a :: 0 <= a < |offsets| && offsets[a] in cells ==> a in pos)
  {
    assert offsets[0..] == offsets;
    PresentFromEntries(offsets, cells, 0);
    PresentFromAscending(offsets, cells, 0);
    PresentFromComplete(offsets, cells, 0);
  }

  /** The scan isValidMove runs over a neighbour list, in list order: does some entry hold `s`? */
  method AnyHolds(ns: seq<(HexCoordinate, CellState)>, s: CellState) returns (found: bool)
    ensures found <==> exists i :: 0 <= i < |ns| && ns[i].1 == s
  {
    for i := 0 to |ns|
      invariant forall j :: 0 <= j < i ==> ns[j].1 != s
    {
      if ns[i].1 == s {
        return true;
      }
    }
    return false;
  }

  class Cell {
    const q: int
    const r: int
    const gridType: GridType
    var state: CellState

    constructor (q: int, r: int, state: CellState, gridType: GridType)
      ensures this.q == q && this.r == r && this.gridType == gridType && this.state == state
    {
      this.q := q;
      this.r := r;
      this.gridType := gridType;
      this.state := state;
    }

    function GetState(): CellState
      reads this
    {
      state
    }

    /** `setState`: only the state changes; position and grid type are fixed at construction. */
    method SetState(newState: CellState)
      modifies this
      ensures GetState() == newState
    {
      state := newState;
    }

    /** `isEmpty`. */
    predicate IsEmpty()
      reads this
    {
      state == Empty
    }

    /** `getHexCoordinate`: the cell's own key. */
    function GetHexCoordinate(): (c: HexCoordinate)
      ensures c.q == q && c.r == r
    {
      HexCoordinate(q, r)
    }

    /**
     * `getNeighbors(board)`: the existing cells around this one, at most six on a hex grid
     * and four on a square one, in the order of the offsets.
     */
    function GetNeighbors(cells: map<HexCoordinate, CellState>): (ns: seq<(HexCoordinate, CellState)>)
      ensures gridType == Hexagonal ==> |ns| <= 6
      ensures gridType == Square ==> |ns| <= 4
      ensures forall n :: n in ns <==>
                n.0 in cells && n.1 == cells[n.0] &&
                (if gridType == Hexagonal then HexDistance(GetHexCoordinate(), n.0) == 1
                 else SquareDistance(GetHexCoordinate(), n.0) == 1)
      ensures var offsets, pos := NeighborOffsets(gridType, GetHexCoordinate()), Present(NeighborOffsets(gridType, GetHexCoordinate()), cells);
        && |pos| == |ns|
        && (forall i :: 0 <= i < |pos| ==> pos[i] < |offsets| && ns[i].0 == offsets[pos[i]])
        && (forall i, j :: 0 <= i < j < |pos| ==> pos[i] < pos[j])
        && (forall a :: 0 <= a < |offsets| && offsets[a] in cells ==> a in pos)
    {
      HexNeighborsSpec(GetHexCoordinate());
      SquareNeighborsSpec(GetHexCoordinate());
      NeighborsInSpec(NeighborOffsets(gridType, GetHexCoordinate()), cells);
      NeighborsInOrder(NeighborOffsets(gridType, GetHexCoordinate()), cells);
      NeighborsIn(NeighborOffsets(gridType, GetHexCoordinate()), cells)
    }
  }
}
