/** Decimal rendering of Java `int`s and the 32-bit wrap-around of `int` arithmetic. */
module Text {

  const TwoTo31: int := 0x8000_0000
  const TwoTo32: int := 0x1_0000_0000

  /** Java's `int` range. */
  predicate IsInt32(x: int) {
    -TwoTo31 <= x < TwoTo31
  }

  /** The value a Java `int` computation yields for the mathematical result `x`. */
  function Wrap32(x: int): (w: int)
    ensures IsInt32(w)
    ensures (w - x) % TwoTo32 == 0
    ensures IsInt32(x) ==> w == x
  {
    (x + TwoTo31) % TwoTo32 - TwoTo31
  }

  function DigitChar(d: nat): (c: char)
    requires d < 10
    ensures '0' <= c <= '9'
  {
    ['0', '1', '2', '3', '4', '5', '6', '7', '8', '9'][d]
  }

  function DigitValue(c: char): (d: nat)
    requires '0' <= c <= '9'
    ensures d < 10
  {
    c as int - '0' as int
  }

  predicate AllDigits(s: string) {
    forall i :: 0 <= i < |s| ==> '0' <= s[i] <= '9'
  }

  /** Decimal digits of `n`, most significant first, no leading zeros. */
  function NatString(n: nat): (s: string)
    ensures |s| > 0 && AllDigits(s)
    ensures n > 0 ==> s[0] != '0'
  {
    if n < 10 then [DigitChar(n)] else NatString(n / 10) + [DigitChar(n % 10)]
  }

  /** `Integer.toString(n)`: an optional minus sign followed by the digits of |n|. */
  function DecimalString(n: int): (s: string)
  {
    if n < 0 then "-" + NatString(-n) else NatString(n)
  }

  function ParseNat(s: string): nat
    requires |s| > 0 && AllDigits(s)
  {
    if |s| == 1 then DigitValue(s[0])
    else ParseNat(s[..|s| - 1]) * 10 + DigitValue(s[|s| - 1])
  }

  /** Reads back what DecimalString writes. */
  function ParseDecimal(s: string): int
    requires |s| > 0
    requires (s[0] == '-' && |s| > 1 && AllDigits(s[1..])) || AllDigits(s)
  {
    if s[0] == '-' then 0 - ParseNat(s[1..]) else ParseNat(s)
  }

  lemma {:induction false} NatStringRoundTrip(n: nat)
    ensures ParseNat(NatString(n)) == n
  {
    if n >= 10 {
      var s := NatString(n);
      assert s[..|s| - 1] == NatString(n / 10);
      NatStringRoundTrip(n / 10);
    }
  }

  /** Decimal rendering is injective: the text determines the number. */
  lemma DecimalStringRoundTrip(n: int)
    ensures var s := DecimalString(n);
      |s| > 0 && ((s[0] == '-' && |s| > 1 && AllDigits(s[1..])) || AllDigits(s))
    ensures ParseDecimal(DecimalString(n)) == n
  {
    var s := DecimalString(n);
    if n < 0 {
      var t := NatString(-n);
      assert s == "-" + t;
      assert s[1..] == t;
      NatStringRoundTrip(-n);
      assert ParseDecimal(s) == 0 - ParseNat(t);
    } else {
      NatStringRoundTrip(n);
      assert s[0] != '-';
    }
  }

  /** The "(q, r)" rendering shared by HexCoordinate and Move. */
  function PairString(q: int, r: int): (s: string)
    ensures |s| >= 6 && s[0] == '(' && s[|s| - 1] == ')'
  {
    "(" + DecimalString(q) + ", " + DecimalString(r) + ")"
  }

  /** The number of rounds of `for (i = 0; i < n; i++)`. */
  function Rounds(n: int): (k: nat)
    ensures n >= 0 ==> k == n
    ensures n < 0 ==> k == 0
  {
    if n < 0 then 0 else n
  }

  /** `n` appended spaces. */
  function Spaces(n: nat): (s: string)
    ensures |s| == n && forall i :: 0 <= i < n ==> s[i] == ' '
  {
    if n == 0 then "" else Spaces(n - 1) + " "
  }

  /** Glyphs each followed by one space. */
  function Spread(glyphs: seq<char>): string {
    if glyphs == [] then "" else Spread(glyphs[..|glyphs| - 1]) + [glyphs[|glyphs| - 1], ' ']
  }

  lemma SpreadSnoc(glyphs: seq<char>, g: char)
    ensures Spread(glyphs + [g]) == Spread(glyphs) + [g, ' ']
  {
    assert (glyphs + [g])[..|glyphs|] == glyphs;
  }

  /** Position by position: the glyphs sit at the even positions, spaces at the odd ones. */
  lemma {:induction false} SpreadLayout(glyphs: seq<char>)
    ensures |Spread(glyphs)| == 2 * |glyphs|
    ensures forall i :: 0 <= i < |Spread(glyphs)| ==>
      Spread(glyphs)[i] == (if i % 2 == 0 then glyphs[i / 2] else ' ')
  {
    if glyphs != [] {
      var init := glyphs[..|glyphs| - 1];
      SpreadLayout(init);
      var t := Spread(glyphs);
      forall i | 0 <= i < |t|
        ensures t[i] == (if i % 2 == 0 then glyphs[i / 2] else ' ')
      {
        if i < |Spread(init)| {
          assert t[i] == Spread(init)[i];
        } else if i == |Spread(init)| {
          assert i / 2 == |init| && i % 2 == 0;
        } else {
          assert i % 2 == 1;
        }
      }
    }
  }

  /** The lines written one after the other. */
  function Concat(lines: seq<string>): string {
    if lines == [] then "" else Concat(lines[..|lines| - 1]) + lines[|lines| - 1]
  }

  lemma ConcatSnoc(lines: seq<string>, line: string)
    ensures Concat(lines + [line]) == Concat(lines) + line
  {
    assert (lines + [line])[..|lines|] == lines;
  }

  /** Newlines of a concatenation add up. */
  lemma NewlinesAppend(a: string, b: string)
    ensures multiset(a + b)['\n'] == multiset(a)['\n'] + multiset(b)['\n']
  {
    assert multiset(a + b) == multiset(a) + multiset(b);
  }

  /** A line holding one newline, as its last character. */
  predicate IsLine(line: string) {
    |line| > 0 && line[|line| - 1] == '\n' && '\n' !in line[..|line| - 1]
  }

  lemma LineNewlines(line: string)
    requires IsLine(line)
    ensures multiset(line)['\n'] == 1
  {
    assert line == line[..|line| - 1] + ['\n'];
    NewlinesAppend(line[..|line| - 1], ['\n']);
  }

  /** Joined lines hold one newline per line and, when there are lines, end in one. */
  lemma {:induction false} ConcatNewlines(lines: seq<string>)
    requires forall i :: 0 <= i < |lines| ==> IsLine(lines[i])
    ensures multiset(Concat(lines))['\n'] == |lines|
    ensures lines != [] ==> |Concat(lines)| > 0 && Concat(lines)[|Concat(lines)| - 1] == '\n'
  {
    if lines != [] {
      var init := lines[..|lines| - 1];
      var last := lines[|lines| - 1];
      ConcatNewlines(init);
      LineNewlines(last);
      NewlinesAppend(Concat(init), last);
    }
  }

  /**
   * Line r follows the first r lines: the joined text starts with them and then with line r,
   * so with one newline per line it is the text after the r-th newline.
   */
  lemma {:induction false} ConcatHasLine(lines: seq<string>, r: nat)
    requires r < |lines|
    ensures Concat(lines[..r]) + lines[r] <= Concat(lines)
  {
    var init := lines[..|lines| - 1];
    if r < |lines| - 1 {
      ConcatHasLine(init, r);
      assert init[..r] == lines[..r] && init[r] == lines[r];
    } else {
      assert init == lines[..r];
    }
  }
}
