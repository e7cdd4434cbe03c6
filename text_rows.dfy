/**
 * The row loop both text views share: columns 0 .. columns-1 of row r, where a missing cell
 * adds nothing and a stored one adds its glyph and, unless it is in the last column, a space.
 */
module RowTexts {
  import opened CellStates
  import opened HexCoordinates
  import opened Text

  /** What column q of row r adds. */
  function CellText(cells: map<HexCoordinate, CellState>, columns: int, q: int, r: int): string {
    var c := HexCoordinate(q, r);
    if c !in cells then ""
    else if q != columns - 1 then [Glyph(cells[c]), ' ']
    else [Glyph(cells[c])]
  }

  /** Columns 0 .. n-1 of row r. */
  function RowText(cells: map<HexCoordinate, CellState>, columns: int, r: int, n: nat): string {
    if n == 0 then "" else RowText(cells, columns, r, n - 1) + CellText(cells, columns, n - 1, r)
  }

  /** A row's text never holds a newline. */
  lemma {:induction false} RowTextNoNewline(cells: map<HexCoordinate, CellState>, columns: int, r: int, n: nat)
    ensures '\n' !in RowText(cells, columns, r, n)
  {
    if n > 0 {
      RowTextNoNewline(cells, columns, r, n - 1);
      assert '\n' !in CellText(cells, columns, n - 1, r);
    }
  }

  /** Row r stores exactly the columns lo .. hi-1. */
  ghost predicate RowKeys(cells: map<HexCoordinate, CellState>, r: int, lo: int, hi: int) {
    0 <= lo <= hi && forall q :: HexCoordinate(q, r) in cells <==> lo <= q < hi
  }

  /** How many of the columns lo .. hi-1 lie below n. */
  function StoredBelow(n: int, lo: int, hi: int): int {
    if n <= lo then 0 else if n <= hi then n - lo else hi - lo
  }

  /** The glyphs of the cells of row r, left to right. */
  function RowGlyphs(cells: map<HexCoordinate, CellState>, r: int, lo: int, hi: int): (glyphs: seq<char>)
    requires RowKeys(cells, r, lo, hi)
    ensures |glyphs| == hi - lo
  {
    seq(hi - lo, k requires 0 <= k < hi - lo => Glyph(cells[HexCoordinate(lo + k, r)]))
  }

  /** The columns before the last one spread the row's glyphs seen so far. */
  lemma {:induction false} RowPrefix(cells: map<HexCoordinate, CellState>, columns: int, r: int, lo: int, hi: int, n: nat)
    requires RowKeys(cells, r, lo, hi) && n <= columns - 1
    ensures 0 <= StoredBelow(n, lo, hi) <= hi - lo
    ensures RowText(cells, columns, r, n) == Spread(RowGlyphs(cells, r, lo, hi)[..StoredBelow(n, lo, hi)])
  {
    var glyphs := RowGlyphs(cells, r, lo, hi);
    if n == 0 {
      assert glyphs[..0] == [];
    } else {
      RowPrefix(cells, columns, r, lo, hi, n - 1);
      var c := HexCoordinate(n - 1, r);
      if c in cells {
        var k := n - 1 - lo;
        assert glyphs[k] == Glyph(cells[c]);
        assert glyphs[..k + 1] == glyphs[..k] + [glyphs[k]];
        SpreadSnoc(glyphs[..k], glyphs[k]);
      }
    }
  }

  /** The last column adds its glyph alone. */
  lemma LastColumn(cells: map<HexCoordinate, CellState>, columns: int, r: int)
    requires columns >= 1 && HexCoordinate(columns - 1, r) in cells
    ensures RowText(cells, columns, r, columns) ==
      RowText(cells, columns, r, columns - 1) + [Glyph(cells[HexCoordinate(columns - 1, r)])]
  {
  }

  /** Dropping the final space of a spread leaves the earlier glyphs spread and the last glyph bare. */
  lemma DropLastSpace(init: seq<char>, g: char)
    ensures var spread := Spread(init + [g]);
      && |spread| > 0 && spread[..|spread| - 1] == Spread(init) + [g]
  {
    SpreadSnoc(init, g);
    assert (Spread(init) + [g, ' '])[..|Spread(init)| + 1] == Spread(init) + [g];
  }

  /** A row whose last cell is in the last column: that glyph has no space after it. */
  lemma RowEndsAtLastColumn(cells: map<HexCoordinate, CellState>, columns: int, r: int, lo: int)
    requires RowKeys(cells, r, lo, columns) && lo < columns
    ensures var spread := Spread(RowGlyphs(cells, r, lo, columns));
      && |spread| > 0
      && RowText(cells, columns, r, columns) == spread[..|spread| - 1]
  {
    var glyphs := RowGlyphs(cells, r, lo, columns);
    var n := |glyphs|;
    RowPrefix(cells, columns, r, lo, columns, columns - 1);
    assert StoredBelow(columns - 1, lo, columns) == n - 1;
    var last := HexCoordinate(columns - 1, r);
    var g := glyphs[n - 1];
    assert g == Glyph(cells[last]);
    LastColumn(cells, columns, r);
    assert glyphs[..n - 1] + [g] == glyphs;
    DropLastSpace(glyphs[..n - 1], g);
  }

  /** A row that stops before the last column: every glyph keeps its space. */
  lemma RowEndsBeforeLastColumn(cells: map<HexCoordinate, CellState>, columns: int, r: int, lo: int, hi: int)
    requires RowKeys(cells, r, lo, hi) && lo < hi < columns
    ensures var spread := Spread(RowGlyphs(cells, r, lo, hi));
      && |spread| > 0
      && RowText(cells, columns, r, columns) == spread
  {
    var glyphs := RowGlyphs(cells, r, lo, hi);
    var n := |glyphs|;
    RowPrefix(cells, columns, r, lo, hi, columns - 1);
    assert StoredBelow(columns - 1, lo, hi) == n;
    assert glyphs[..n] == glyphs;
    assert HexCoordinate(columns - 1, r) !in cells;
    assert CellText(cells, columns, columns - 1, r) == "";
    assert RowText(cells, columns, r, columns) == RowText(cells, columns, r, columns - 1) + "";
  }

  /**
   * A whole row is its glyphs, left to right, each followed by a space, except that the last
   * glyph has none when its cell is in the last column.
   */
  lemma RowSpread(cells: map<HexCoordinate, CellState>, columns: int, r: int, lo: int, hi: int)
    requires RowKeys(cells, r, lo, hi) && lo < hi <= columns
    ensures var spread := Spread(RowGlyphs(cells, r, lo, hi));
      && |spread| > 0
      && RowText(cells, columns, r, columns) == if hi == columns then spread[..|spread| - 1] else spread
  {
    if hi == columns {
      RowEndsAtLastColumn(cells, columns, r, lo);
    } else {
      RowEndsBeforeLastColumn(cells, columns, r, lo, hi);
    }
  }
}
