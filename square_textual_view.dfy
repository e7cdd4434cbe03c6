/**
 * SquareTexualView: the text of a square board, one line per row, the cells of a row
 * separated by single spaces. The constructor ignores the board it is given and always
 * renders a fresh 8x8 board, so the text never changes.
 */
module SquareTextualViews {
  import opened CellStates
  import opened HexCoordinates
  import opened Text
  import opened RowTexts
  import opened SquareBoards

  function SquareLine(cells: map<HexCoordinate, CellState>, size: int, r: int): string {
    RowText(cells, size, r, Rounds(size)) + "\n"
  }

  /** The lines of rows 0 .. size-1. */
  function SquareLines(cells: map<HexCoordinate, CellState>, size: int): (lines: seq<string>)
    ensures |lines| == Rounds(size)
  {
    seq(Rounds(size), r => SquareLine(cells, size, r))
  }

  /** The whole text `toString` builds. */
  function SquareText(cells: map<HexCoordinate, CellState>, size: int): string {
    Concat(SquareLines(cells, size))
  }

  lemma SquareLineShape(cells: map<HexCoordinate, CellState>, size: int, r: int)
    ensures IsLine(SquareLine(cells, size, r))
  {
    var line := SquareLine(cells, size, r);
    RowTextNoNewline(cells, size, r, Rounds(size));
    assert line[..|line| - 1] == RowText(cells, size, r, Rounds(size));
  }

  lemma AllSquareLines(cells: map<HexCoordinate, CellState>, size: int, n: nat)
    requires n <= Rounds(size)
    ensures forall i :: 0 <= i < n ==> IsLine(SquareLines(cells, size)[..n][i])
  {
    forall i | 0 <= i < n ensures IsLine(SquareLines(cells, size)[..n][i]) {
      SquareLineShape(cells, size, i);
    }
  }

  /** The text has size lines: as many newlines, and the last character a newline. */
  lemma SquareTextLines(cells: map<HexCoordinate, CellState>, size: int)
    ensures multiset(SquareText(cells, size))['\n'] == Rounds(size)
    ensures size > 0 ==> |SquareText(cells, size)| > 0 && SquareText(cells, size)[|SquareText(cells, size)| - 1] == '\n'
  {
    var lines := SquareLines(cells, size);
    AllSquareLines(cells, size, |lines|);
    assert lines[..|lines|] == lines;
    ConcatNewlines(lines);
  }

  /** Line r comes right after the first r lines, which hold r newlines. */
  lemma SquareTextLineAt(cells: map<HexCoordinate, CellState>, size: int, r: nat)
    requires r < Rounds(size)
    ensures multiset(Concat(SquareLines(cells, size)[..r]))['\n'] == r
    ensures Concat(SquareLines(cells, size)[..r]) + SquareLine(cells, size, r) <= SquareText(cells, size)
  {
    var lines := SquareLines(cells, size);
    AllSquareLines(cells, size, r);
    ConcatNewlines(lines[..r]);
    ConcatHasLine(lines, r);
  }

  /**
   * On a board built by createBoard, row r is the glyphs of its size cells, left to right,
   * separated by single spaces, with no space after the last one.
   */
  lemma SquareRowLayout(cells: map<HexCoordinate, CellState>, size: int, r: int)
    requires cells.Keys == SquareKeys(size) && 0 <= r < size
    ensures RowKeys(cells, r, 0, size)
    ensures var spread := Spread(RowGlyphs(cells, r, 0, size));
      && |spread| > 0
      && RowText(cells, size, r, Rounds(size)) == spread[..|spread| - 1]
  {
    forall q ensures HexCoordinate(q, r) in cells <==> 0 <= q < size {
      assert HexCoordinate(q, r) in cells <==> IsValidCell(size, q, r);
    }
    RowSpread(cells, size, r, 0, size);
  }

  /** The glyphs of row r of the 8x8 starting board. */
  function StartGlyphs(r: int): string {
    if r == 3 then "___XO___" else if r == 4 then "___OX___" else "________"
  }

  /** Row r of the 8x8 starting board as the view prints it. */
  function StartRow(r: int): string {
    if r == 3 then "_ _ _ X O _ _ _\n" else if r == 4 then "_ _ _ O X _ _ _\n" else "_ _ _ _ _ _ _ _\n"
  }

  /** The text of the 8x8 starting board: X O on row 3, O X on row 4, every other cell `_`. */
  function StartText(): string {
    Concat(seq(8, StartRow))
  }

  lemma StartGlyphsAre(r: int)
    requires 0 <= r < 8
    ensures RowKeys(SquareStart(8), r, 0, 8)
    ensures RowGlyphs(SquareStart(8), r, 0, 8) == StartGlyphs(r)
  {
    var cells := SquareStart(8);
    forall q ensures HexCoordinate(q, r) in cells <==> 0 <= q < 8 {
      assert HexCoordinate(q, r) in cells <==> HexCoordinate(q, r) in SquareKeys(8);
    }
    var glyphs := RowGlyphs(cells, r, 0, 8);
    forall k | 0 <= k < 8 ensures glyphs[k] == StartGlyphs(r)[k] {
      assert HexCoordinate(k, r) in SquareKeys(8);
    }
  }

  /** Eight glyphs with the seven spaces between them. */
  lemma SpreadEight(g: string)
    requires |g| == 8
    ensures |Spread(g)| == 16
    ensures Spread(g)[..15] == [g[0], ' ', g[1], ' ', g[2], ' ', g[3], ' ', g[4], ' ', g[5], ' ', g[6], ' ', g[7]]
  {
    SpreadLayout(g);
  }

  lemma StartRowIs(r: int)
    requires 0 <= r < 8
    ensures SquareLine(SquareStart(8), 8, r) == StartRow(r)
  {
    StartGlyphsAre(r);
    RowSpread(SquareStart(8), 8, r, 0, 8);
    var g := StartGlyphs(r);
    SpreadEight(g);
    if r == 3 {
      assert [g[0], ' ', g[1], ' ', g[2], ' ', g[3], ' ', g[4], ' ', g[5], ' ', g[6], ' ', g[7]] + "\n" == StartRow(r);
    } else if r == 4 {
      assert [g[0], ' ', g[1], ' ', g[2], ' ', g[3], ' ', g[4], ' ', g[5], ' ', g[6], ' ', g[7]] + "\n" == StartRow(r);
    } else {
      assert [g[0], ' ', g[1], ' ', g[2], ' ', g[3], ' ', g[4], ' ', g[5], ' ', g[6], ' ', g[7]] + "\n" == StartRow(r);
    }
  }

  /** `new SquareTexualView(anything).toString()` is always the 8x8 starting layout. */
  lemma StartTextIsRendering()
    ensures SquareText(SquareStart(8), 8) == StartText()
  {
    var lines := SquareLines(SquareStart(8), 8);
    forall r | 0 <= r < 8 ensures lines[r] == seq(8, StartRow)[r] {
      StartRowIs(r);
    }
    assert lines == seq(8, StartRow);
  }

  class SquareTexualView {
    const board: SquareBoard

    /** The fresh 8x8 board the constructor makes, untouched since. */
    ghost predicate Valid()
      reads this, board
    {
      board.size == 8 && board.cells == SquareStart(8)
    }

    /** The argument is ignored: the view always gets a new SquareBoard(8). */
    constructor(board: object?)
      ensures fresh(this.board) && Valid()
    {
      this.board := new SquareBoard(8);
    }

    /** The cell loop of row r: each stored cell's glyph, and a space unless it is in the last column. */
    method AppendRow(s: string, r: int) returns (t: string)
      ensures t == s + RowText(board.cells, board.size, r, Rounds(board.size))
    {
      var size := board.size;
      t := s;
      var q := 0;
      while q < size
        invariant 0 <= q <= Rounds(size)
        invariant t == s + RowText(board.cells, size, r, q)
      {
        ghost var prefix := RowText(board.cells, size, r, q);
        var cell := board.GetCellStateAt(HexCoordinate(q, r));
        if cell.Some? {
          if cell.value == Empty {
            t := t + "_";
          } else {
            t := t + (if cell.value == X then "X" else "O");
          }
          if q != size - 1 {
            t := t + " ";
          }
        }
        assert t == s + (prefix + CellText(board.cells, size, q, r));
        q := q + 1;
      }
    }

    /** One row's line: its cells and a newline. */
    method AppendLine(s: string, r: int) returns (t: string)
      ensures t == s + SquareLine(board.cells, board.size, r)
    {
      t := AppendRow(s, r);
      t := t + "\n";
    }

    /** toString: one line per row, built by appending to one buffer; on the view's own board, the starting layout. */
    method ToString() returns (s: string)
      ensures s == SquareText(board.cells, board.size)
      ensures Valid() ==> s == StartText()
    {
      var size := board.size;
      ghost var lines := SquareLines(board.cells, size);
      s := "";
      var r := 0;
      while r < size
        invariant 0 <= r <= Rounds(size)
        invariant s == Concat(lines[..r])
      {
        s := AppendLine(s, r);
        assert lines[..r + 1] == lines[..r] + [lines[r]];
        ConcatSnoc(lines[..r], lines[r]);
        r := r + 1;
      }
      assert lines[..r] == lines;
      if Valid() {
        StartTextIsRendering();
      }
    }
  }
}
