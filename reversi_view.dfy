/**
 * ReversiView: the text of a hexagonal board. Row r of the 2*size-1 rows is indented by
 * |size-1-r| spaces and lists the stored cells of that row left to right, each followed
 * by a space unless it sits in the last column 2*size-2, and ends in a newline.
 */
module ReversiViews {
  import opened CellStates
  import opened HexCoordinates
  import opened Cells
  import opened Text
  import opened RowTexts
  import opened HexBoard

  function Line(cells: map<HexCoordinate, CellState>, size: int, r: int): string {
    Spaces(Abs(size - 1 - r)) + RowText(cells, 2 * size - 1, r, Rounds(2 * size - 1)) + "\n"
  }

  /** The lines of rows 0 .. 2*size-2. */
  function Lines(cells: map<HexCoordinate, CellState>, size: int): (lines: seq<string>)
    ensures |lines| == Rounds(2 * size - 1)
  {
    seq(Rounds(2 * size - 1), r => Line(cells, size, r))
  }

  /** The whole text `toString` builds. */
  function BoardText(cells: map<HexCoordinate, CellState>, size: int): string {
    Concat(Lines(cells, size))
  }

  /** The first and one past the last stored column of row r. */
  function RowStart(size: int, r: int): int { Max(0, r - size + 1) }
  function RowEnd(size: int, r: int): int { Min(2 * size - 1, r + size) }

  /** Each line starts with its indentation and holds exactly one newline, its last character. */
  lemma LineShape(cells: map<HexCoordinate, CellState>, size: int, r: int)
    ensures IsLine(Line(cells, size, r))
    ensures forall i :: 0 <= i < Abs(size - 1 - r) ==> Line(cells, size, r)[i] == ' '
  {
    var pad := Spaces(Abs(size - 1 - r));
    var row := RowText(cells, 2 * size - 1, r, Rounds(2 * size - 1));
    var line := Line(cells, size, r);
    RowTextNoNewline(cells, 2 * size - 1, r, Rounds(2 * size - 1));
    assert line[..|line| - 1] == pad + row;
  }

  lemma AllLines(cells: map<HexCoordinate, CellState>, size: int, n: nat)
    requires n <= Rounds(2 * size - 1)
    ensures forall i :: 0 <= i < n ==> IsLine(Lines(cells, size)[..n][i])
  {
    forall i | 0 <= i < n ensures IsLine(Lines(cells, size)[..n][i]) {
      LineShape(cells, size, i);
    }
  }

  /** The text has 2*size-1 lines: as many newlines, and the last character a newline. */
  lemma TextLines(cells: map<HexCoordinate, CellState>, size: int)
    ensures multiset(BoardText(cells, size))['\n'] == Rounds(2 * size - 1)
    ensures size > 0 ==> |BoardText(cells, size)| > 0 && BoardText(cells, size)[|BoardText(cells, size)| - 1] == '\n'
  {
    var lines := Lines(cells, size);
    AllLines(cells, size, |lines|);
    assert lines[..|lines|] == lines;
    ConcatNewlines(lines);
  }

  /** Line r (indentation, row, newline) comes right after the first r lines, which hold r newlines. */
  lemma TextLineAt(cells: map<HexCoordinate, CellState>, size: int, r: nat)
    requires r < Rounds(2 * size - 1)
    ensures multiset(Concat(Lines(cells, size)[..r]))['\n'] == r
    ensures Concat(Lines(cells, size)[..r]) + Line(cells, size, r) <= BoardText(cells, size)
  {
    var lines := Lines(cells, size);
    AllLines(cells, size, r);
    ConcatNewlines(lines[..r]);
    ConcatHasLine(lines, r);
  }

  /** Row r of a board built by createBoard stores the columns RowStart .. RowEnd-1. */
  lemma HexRowKeys(cells: map<HexCoordinate, CellState>, size: int, r: int)
    requires cells.Keys == HexKeys(size) && 0 <= r < 2 * size - 1
    ensures RowKeys(cells, r, RowStart(size, r), RowEnd(size, r))
  {
    forall q ensures HexCoordinate(q, r) in cells <==> RowStart(size, r) <= q < RowEnd(size, r) {
      assert HexCoordinate(q, r) in cells <==> IsHexKey(size, HexCoordinate(q, r));
    }
  }

  /**
   * On a board built by createBoard, row r is the glyphs of its stored cells, left to right,
   * each followed by a space, except that the last cell's space is missing exactly in the
   * middle row and the rows below it (their last cell is in column 2*size-2).
   */
  lemma RowLayout(cells: map<HexCoordinate, CellState>, size: int, r: int)
    requires cells.Keys == HexKeys(size) && 0 <= r < 2 * size - 1
    ensures RowKeys(cells, r, RowStart(size, r), RowEnd(size, r))
    ensures var spread := Spread(RowGlyphs(cells, r, RowStart(size, r), RowEnd(size, r)));
      && |spread| > 0
      && RowText(cells, 2 * size - 1, r, Rounds(2 * size - 1)) ==
           if r >= size - 1 then spread[..|spread| - 1] else spread
  {
    HexRowKeys(cells, size, r);
    RowSpread(cells, 2 * size - 1, r, RowStart(size, r), RowEnd(size, r));
  }

  class ReversiView {
    const board: BoardImpl

    constructor(board: BoardImpl)
      ensures this.board == board
    {
      this.board := board;
    }

    /** The indentation loop: `offset` spaces appended to the buffer. */
    method AppendIndent(s: string, offset: nat) returns (t: string)
      ensures t == s + Spaces(offset)
    {
      t := s;
      var i := 0;
      while i < offset
        invariant 0 <= i <= offset
        invariant t == s + Spaces(i)
      {
        t := t + " ";
        i := i + 1;
      }
    }

    /** The cell loop of row r: each stored cell's glyph, and a space unless it is in the last column. */
    method AppendRow(s: string, r: int) returns (t: string)
      ensures t == s + RowText(board.cells, 2 * board.size - 1, r, Rounds(2 * board.size - 1))
    {
      var size := board.size;
      t := s;
      var q := 0;
      while q < 2 * size - 1
        invariant 0 <= q <= Rounds(2 * size - 1)
        invariant t == s + RowText(board.cells, 2 * size - 1, r, q)
      {
        ghost var prefix := RowText(board.cells, 2 * size - 1, r, q);
        var cell := board.GetCellStateAt(HexCoordinate(q, r));
        if cell.Some? {
          if cell.value == Empty {
            t := t + "_";
          } else {
            t := t + (if cell.value == X then "X" else "O");
          }
          if q != 2 * size - 2 {
            t := t + " ";
          }
        }
        assert t == s + (prefix + CellText(board.cells, 2 * size - 1, q, r));
        q := q + 1;
      }
    }

    /** One row's line: its indentation, its cells and a newline. */
    method AppendLine(s: string, r: int) returns (t: string)
      ensures t == s + Line(board.cells, board.size, r)
    {
      var size := board.size;
      var indented := AppendIndent(s, Abs(size - 1 - r));
      var row := AppendRow(indented, r);
      t := row + "\n";
      var pad := Spaces(Abs(size - 1 - r));
      var cellsText := RowText(board.cells, 2 * size - 1, r, Rounds(2 * size - 1));
      assert t == s + (pad + cellsText + "\n");
    }

    /** toString: one line per row, built by appending to one buffer. */
    method ToString() returns (s: string)
      ensures s == BoardText(board.cells, board.size)
    {
      var size := board.size;
      var totalRows := 2 * size - 1;
      ghost var lines := Lines(board.cells, size);
      s := "";
      var r := 0;
      while r < totalRows
        invariant 0 <= r <= Rounds(totalRows)
        invariant s == Concat(lines[..r])
      {
        s := AppendLine(s, r);
        assert lines[..r + 1] == lines[..r] + [lines[r]];
        ConcatSnoc(lines[..r], lines[r]);
        r := r + 1;
      }
      assert lines[..r] == lines;
    }
  }
}
