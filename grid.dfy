/**
 * The [0,size) x [0,size) scan that the games, the strategies and the views all run:
 * q in the outer loop, r in the inner one.
 */
module Grid {
  import opened HexCoordinates
  import opened Moves

  /** The bounds test of ReversiGame.isValidCell, HintManager.isValidCell and SquareBoard.isValidCell. */
  predicate InSquare(size: int, q: int, r: int) {
    0 <= q < size && 0 <= r < size
  }

  /** Column q, rows 0 .. n-1. */
  function Column(q: int, n: nat): (col: seq<HexCoordinate>)
    ensures |col| == n
    ensures forall i :: 0 <= i < n ==> col[i] == HexCoordinate(q, i)
  {
    seq(n, i => HexCoordinate(q, i))
  }

  /** Columns 0 .. k-1, each of `size` rows. */
  function Columns(k: nat, size: nat): seq<HexCoordinate> {
    if k == 0 then [] else Columns(k - 1, size) + Column(k - 1, size)
  }

  /** The full scan, in visiting order. */
  function Scan(size: nat): seq<HexCoordinate> {
    Columns(size, size)
  }

  /** Lexicographic order on coordinates (the order of Move.compareTo). */
  predicate CoordLess(a: HexCoordinate, b: HexCoordinate) {
    a.q < b.q || (a.q == b.q && a.r < b.r)
  }

  predicate CoordAscending(xs: seq<HexCoordinate>) {
    forall i, j :: 0 <= i < j < |xs| ==> CoordLess(xs[i], xs[j])
  }

  /** No element occurs twice. */
  predicate NoDuplicates<T(==)>(xs: seq<T>) {
    forall i, j :: 0 <= i < j < |xs| ==> xs[i] != xs[j]
  }

  lemma {:induction false} ColumnsShape(k: nat, size: nat)
    ensures |Columns(k, size)| == k * size
    ensures forall c :: c in Columns(k, size) <==> 0 <= c.q < k && 0 <= c.r < size
    ensures CoordAscending(Columns(k, size))
  {
    if k > 0 {
      ColumnsShape(k - 1, size);
      var prev, col := Columns(k - 1, size), Column(k - 1, size);
      assert Columns(k, size) == prev + col;
      forall c: HexCoordinate | 0 <= c.q < k && 0 <= c.r < size
        ensures c in Columns(k, size)
      {
        if c.q == k - 1 {
          assert col[c.r] == c;
        } else {
          assert c in prev;
        }
      }
      assert (k - 1) * size + size == k * size;
    }
  }

  /** The scan visits every cell of the square exactly once, in ascending compareTo order. */
  lemma ScanShape(size: nat)
    ensures |Scan(size)| == size * size
    ensures forall c :: c in Scan(size) <==> InSquare(size, c.q, c.r)
    ensures CoordAscending(Scan(size))
  {
    ColumnsShape(size, size);
  }

  function ToMove(c: HexCoordinate): Move {
    Move(c.q, c.r)
  }

  /** The moves for the coordinates of `xs` that pass `keep`, in the order of `xs`. */
  function Select(xs: seq<HexCoordinate>, keep: HexCoordinate -> bool): seq<Move> {
    if xs == [] then []
    else Select(xs[..|xs| - 1], keep) + (if keep(xs[|xs| - 1]) then [ToMove(xs[|xs| - 1])] else [])
  }

  lemma {:induction false} SelectMembers(xs: seq<HexCoordinate>, keep: HexCoordinate -> bool)
    ensures |Select(xs, keep)| <= |xs|
    ensures forall m :: m in Select(xs, keep) <==> HexCoordinate(m.q, m.r) in xs && keep(HexCoordinate(m.q, m.r))
  {
    if xs != [] {
      var init, last := xs[..|xs| - 1], xs[|xs| - 1];
      SelectMembers(init, keep);
      assert xs == init + [last];
    }
  }

  /** Filtering an ascending scan keeps it ascending. */
  lemma {:induction false} SelectAscending(xs: seq<HexCoordinate>, keep: HexCoordinate -> bool)
    requires CoordAscending(xs)
    ensures Ascending(Select(xs, keep))
  {
    if xs != [] {
      var init, last := xs[..|xs| - 1], xs[|xs| - 1];
      SelectAscending(init, keep);
      SelectMembers(init, keep);
      var s := Select(init, keep);
      forall m | m in s
        ensures Less(m, ToMove(last))
      {
        var k :| 0 <= k < |init| && init[k] == HexCoordinate(m.q, m.r);
        assert CoordLess(xs[k], xs[|xs| - 1]);
      }
    }
  }

  /** How many coordinates of `xs` pass `keep`. */
  function CountIf(xs: seq<HexCoordinate>, keep: HexCoordinate -> bool): nat {
    if xs == [] then 0
    else CountIf(xs[..|xs| - 1], keep) + (if keep(xs[|xs| - 1]) then 1 else 0)
  }

  /** Appending one coordinate adds one to the count exactly when it passes `keep`. */
  lemma CountIfSnoc(xs: seq<HexCoordinate>, x: HexCoordinate, keep: HexCoordinate -> bool)
    ensures CountIf(xs + [x], keep) == CountIf(xs, keep) + (if keep(x) then 1 else 0)
  {
    assert (xs + [x])[..|xs|] == xs;
  }

  /** A count never exceeds the number of coordinates counted. */
  lemma {:induction false} CountIfAtMost(xs: seq<HexCoordinate>, keep: HexCoordinate -> bool)
    ensures CountIf(xs, keep) <= |xs|
  {
    if xs != [] {
      CountIfAtMost(xs[..|xs| - 1], keep);
    }
  }

  /** Nothing in `xs` passes `keep`: the count is zero. */
  lemma {:induction false} CountIfNone(xs: seq<HexCoordinate>, keep: HexCoordinate -> bool)
    requires forall x :: x in xs ==> !keep(x)
    ensures CountIf(xs, keep) == 0
  {
    if xs != [] {
      assert xs[|xs| - 1] in xs;
      assert forall x :: x in xs[..|xs| - 1] ==> x in xs;
      CountIfNone(xs[..|xs| - 1], keep);
    }
  }

  /** Three predicates that split every coordinate of `xs` three ways split the count of `xs`. */
  lemma {:induction false} CountIfPartition(xs: seq<HexCoordinate>, a: HexCoordinate -> bool,
                                            b: HexCoordinate -> bool, c: HexCoordinate -> bool)
    requires forall x :: x in xs ==> (if a(x) then 1 else 0) + (if b(x) then 1 else 0) + (if c(x) then 1 else 0) == 1
    ensures CountIf(xs, a) + CountIf(xs, b) + CountIf(xs, c) == |xs|
  {
    if xs != [] {
      assert xs[|xs| - 1] in xs;
      CountIfPartition(xs[..|xs| - 1], a, b, c);
    }
  }

  /** A counted coordinate that passes `keep` and lies in `xs` makes the count positive. */
  lemma {:induction false} CountIfPositive(xs: seq<HexCoordinate>, keep: HexCoordinate -> bool, x: HexCoordinate)
    requires x in xs && keep(x)
    ensures CountIf(xs, keep) > 0
  {
    if xs[|xs| - 1] != x {
      assert x in xs[..|xs| - 1];
      CountIfPositive(xs[..|xs| - 1], keep, x);
    }
  }

  /** The nested q/r loop that collects `new Move(q, r)` for every kept cell. */
  method ScanMoves(size: nat, keep: HexCoordinate -> bool) returns (moves: seq<Move>)
    ensures moves == Select(Scan(size), keep)
  {
    moves := [];
    var q := 0;
    while q < size
      invariant 0 <= q <= size
      invariant moves == Select(Columns(q, size), keep)
    {
      var r := 0;
      assert Columns(q, size) + Column(q, 0) == Columns(q, size);
      while r < size
        invariant 0 <= r <= size
        invariant moves == Select(Columns(q, size) + Column(q, r), keep)
      {
        var done := Columns(q, size) + Column(q, r);
        assert Columns(q, size) + Column(q, r + 1) == done + [HexCoordinate(q, r)];
        if keep(HexCoordinate(q, r)) {
          moves := moves + [Move(q, r)];
        }
        r := r + 1;
      }
      assert Columns(q, size) + Column(q, size) == Columns(q + 1, size);
      q := q + 1;
    }
  }

  /** The nested q/r counter loop of `score` and `countCaptures`. */
  method CountWhere(size: nat, keep: HexCoordinate -> bool) returns (count: nat)
    ensures count == CountIf(Scan(size), keep)
  {
    count := 0;
    var q := 0;
    while q < size
      invariant 0 <= q <= size
      invariant count == CountIf(Columns(q, size), keep)
    {
      var r := 0;
      assert Columns(q, size) + Column(q, 0) == Columns(q, size);
      while r < size
        invariant 0 <= r <= size
        invariant count == CountIf(Columns(q, size) + Column(q, r), keep)
      {
        var done := Columns(q, size) + Column(q, r);
        assert Columns(q, size) + Column(q, r + 1) == done + [HexCoordinate(q, r)];
        if keep(HexCoordinate(q, r)) {
          count := count + 1;
        }
        r := r + 1;
      }
      assert Columns(q, size) + Column(q, size) == Columns(q + 1, size);
      q := q + 1;
    }
  }
}
