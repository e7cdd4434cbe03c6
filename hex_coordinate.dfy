/** The (q, r) key type used by both boards. */
module HexCoordinates {
  import Text

  /** An immutable coordinate pair; getQ/getR are the field selectors. */
  datatype HexCoordinate = HexCoordinate(q: int, r: int)

  /** `equals`: another HexCoordinate with the same q and r. */
  function Equals(a: HexCoordinate, b: HexCoordinate): (eq: bool)
    ensures eq <==> a == b
    ensures eq <==> a.q == b.q && a.r == b.r
  {
    a.q == b.q && a.r == b.r
  }

  /** `Objects.hash(q, r)`, i.e. 31 * (31 + q) + r in 32-bit arithmetic. */
  function HashCode(c: HexCoordinate): (h: int)
    ensures Text.IsInt32(h)
    ensures (h - (961 + 31 * c.q + c.r)) % Text.TwoTo32 == 0
  {
    Text.Wrap32(31 * (31 * 1 + c.q) + c.r)
  }

  /** Equal coordinates hash equally; for small coordinates the hash is exact. */
  lemma HashCodeConsistent(a: HexCoordinate, b: HexCoordinate)
    requires Equals(a, b)
    ensures HashCode(a) == HashCode(b)
  {
  }

  lemma HashCodeSmall(c: HexCoordinate)
    requires -1000 <= c.q <= 1000 && -1000 <= c.r <= 1000
    ensures HashCode(c) == 961 + 31 * c.q + c.r
  {
  }

  /** `toString`: "(q, r)". */
  function ToString(c: HexCoordinate): (s: string)
    ensures s == Text.PairString(c.q, c.r)
  {
    "(" + Text.DecimalString(c.q) + ", " + Text.DecimalString(c.r) + ")"
  }
}
