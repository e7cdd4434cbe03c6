/** The move value the strategies return, with its total order. */
module Moves {
  import Text

  datatype Move = Move(q: int, r: int)

  /** `Integer.compare`. */
  function IntegerCompare(x: int, y: int): (c: int)
    ensures -1 <= c <= 1
    ensures c < 0 <==> x < y
    ensures c == 0 <==> x == y
  {
    if x < y then -1 else if x == y then 0 else 1
  }

  /** `compareTo`: q decides, and r breaks a tie in q. */
  function CompareTo(a: Move, b: Move): (c: int)
    ensures c < 0 <==> a.q < b.q || (a.q == b.q && a.r < b.r)
    ensures c == 0 <==> a == b
    ensures c > 0 <==> a.q > b.q || (a.q == b.q && a.r > b.r)
  {
    if a.q != b.q then IntegerCompare(a.q, b.q) else IntegerCompare(a.r, b.r)
  }

  predicate Less(a: Move, b: Move) {
    CompareTo(a, b) < 0
  }

  /** compareTo is antisymmetric in sign. */
  lemma CompareToAntisymmetric(a: Move, b: Move)
    ensures CompareTo(a, b) < 0 <==> CompareTo(b, a) > 0
    ensures CompareTo(a, b) == 0 <==> CompareTo(b, a) == 0
  {
  }

  /** compareTo is transitive, so it is a strict total order together with the two lemmas around it. */
  lemma CompareToTransitive(a: Move, b: Move, c: Move)
    requires CompareTo(a, b) < 0 && CompareTo(b, c) < 0
    ensures CompareTo(a, c) < 0
  {
  }

  lemma CompareToTotal(a: Move, b: Move)
    ensures a == b || Less(a, b) || Less(b, a)
  {
  }

  /**
   * The head of `ms` once sorted by compareTo, i.e. `sort(null)` followed by `get(0)`:
   * a listed move that no listed move precedes.
   */
  function Least(ms: seq<Move>): (m: Move)
    requires ms != []
    ensures m in ms
    ensures forall v :: v in ms ==> !Less(v, m)
  {
    if |ms| == 1 then ms[0]
    else
      var rest := Least(ms[1..]);
      assert forall v :: v in ms ==> v == ms[0] || v in ms[1..];
      if Less(ms[0], rest) then ms[0] else rest
  }

  /** The argument of `equals(Object)`: a Move or some other object (null included). */
  datatype Object = MoveObject(move: Move) | OtherObject

  /** `equals`: only a Move with the same coordinates. */
  function Equals(m: Move, other: Object): (eq: bool)
    ensures eq <==> other == MoveObject(m)
    ensures other.OtherObject? ==> !eq
  {
    match other
    case MoveObject(that) => m.q == that.q && m.r == that.r
    case OtherObject => false
  }

  /** compareTo is consistent with equals. */
  lemma CompareToConsistentWithEquals(a: Move, b: Move)
    ensures CompareTo(a, b) == 0 <==> Equals(a, MoveObject(b))
  {
  }

  /** `hashCode`: q * 31 + r in 32-bit arithmetic. */
  function HashCode(m: Move): (h: int)
    ensures Text.IsInt32(h)
    ensures (h - (31 * m.q + m.r)) % Text.TwoTo32 == 0
  {
    Text.Wrap32(m.q * 31 + m.r)
  }

  lemma HashCodeConsistent(a: Move, b: Move)
    requires Equals(a, MoveObject(b))
    ensures HashCode(a) == HashCode(b)
  {
  }

  /** `toString`: "(q, r)", the same text as a HexCoordinate. */
  function ToString(m: Move): (s: string)
    ensures s == Text.PairString(m.q, m.r)
  {
    "(" + Text.DecimalString(m.q) + ", " + Text.DecimalString(m.r) + ")"
  }

  /** Strictly increasing by compareTo. */
  predicate Ascending(ms: seq<Move>) {
    forall i, j :: 0 <= i < j < |ms| ==> Less(ms[i], ms[j])
  }

  /** The corner test of both corner strategies. */
  predicate IsCorner(q: int, r: int, boardSize: int) {
    (q == 0 || q == boardSize - 1) && (r == 0 || r == boardSize - 1)
  }
}
