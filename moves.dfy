/** A move of the game (the `Move` struct): a word placed on the board, or a
    bomb, together with the hand it leaves. */
module Moves {
  import opened Common

  /** `Move`. `handAfter` is `HandAfterMoveBytes`, which is null (None) for
      a bomb. */
  datatype Move = Move(x: int, y: int, length: int, horizontal: bool, kill: bool, bomb: bool,
                       handAfter: Option<seq<nat>>, word: string)

  /** `new Move { Bomb = true }`: every other field keeps its default (the
      null word is the empty string here). */
  const BombMove: Move := Move(0, 0, 0, false, false, true, None, "")

  /** Number of letter slots with at least one tile. */
  function CountPositive(h: seq<nat>): (n: nat)
    ensures n <= |h|
  {
    if h == [] then 0 else CountPositive(h[..|h| - 1]) + (if h[|h| - 1] > 0 then 1 else 0)
  }

  /** `HandAfterMoveLength`: the number of distinct letters left in the hand
      after the move, or -1 when the move carries no hand. */
  function HandAfterMoveLength(m: Move): (n: int)
    ensures n == -1 <==> m.handAfter.None?
    ensures m.handAfter.Some? ==> 0 <= n <= |m.handAfter.value|
  {
    match m.handAfter
    case None => -1
    case Some(h) => CountPositive(h)
  }

  /** No distinct letter is left exactly when no tile is left. */
  lemma {:induction false} CountPositiveZero(h: seq<nat>)
    ensures CountPositive(h) == 0 <==> Total(h) == 0
  {
    if h != [] {
      CountPositiveZero(h[..|h| - 1]);
    }
  }

  /** A move that carries a hand reports 0 letters left exactly when it
      empties the hand. */
  lemma HandAfterMoveLengthEmpty(m: Move)
    requires m.handAfter.Some?
    ensures HandAfterMoveLength(m) == 0 <==> Total(m.handAfter.value) == 0
  {
    CountPositiveZero(m.handAfter.value);
  }

  // ------------------------------------------------------------- rendering

  predicate IsDigit(c: char) { '0' <= c <= '9' }

  predicate AllDigits(s: string) { forall k :: 0 <= k < |s| ==> IsDigit(s[k]) }

  function Digit(d: nat): (c: char)
    requires d < 10
    ensures IsDigit(c)
  {
    ('0' as int + d) as char
  }

  /** Decimal digits of a natural number, without leading zeros. */
  function NatToString(n: nat): (s: string)
    ensures |s| > 0 && AllDigits(s)
    ensures |s| > 1 ==> s[0] != '0'
  {
    if n < 10 then [Digit(n)] else NatToString(n / 10) + [Digit(n % 10)]
  }

  /** C#'s rendering of an `int` in an interpolated string. */
  function IntToString(i: int): (s: string)
    ensures |s| > 0
    ensures forall k :: 0 <= k < |s| ==> s[k] != ',' && s[k] != ')'
  {
    if i < 0 then "-" + NatToString(-i) else NatToString(i)
  }

  /** The value of a string of decimal digits. */
  function DecimalValue(s: string): nat
    requires AllDigits(s)
  {
    if s == [] then 0 else 10 * DecimalValue(s[..|s| - 1]) + (s[|s| - 1] as int - '0' as int)
  }

  /** The value of an optionally signed decimal number. */
  function ParseInt(s: string): Option<int>
  {
    if |s| > 0 && s[0] == '-' then
      if AllDigits(s[1..]) then var v: int := DecimalValue(s[1..]); Some(-v) else None
    else if AllDigits(s) then Some(DecimalValue(s)) else None
  }

  lemma {:induction false} NatToStringValue(n: nat)
    ensures DecimalValue(NatToString(n)) == n
  {
    if n >= 10 {
      NatToStringValue(n / 10);
      var s := NatToString(n);
      assert s[..|s| - 1] == NatToString(n / 10);
    }
  }

  /** Rendering an integer and reading it back gives the integer. */
  lemma IntToStringRoundTrip(i: int)
    ensures ParseInt(IntToString(i)) == Some(i)
  {
    if i < 0 {
      NatToStringValue(-i);
      assert IntToString(i)[1..] == NatToString(-i);
    } else {
      NatToStringValue(i);
    }
  }

  /** `Move.ToString`: "BOOM" for a bomb, otherwise an arrow for the
      orientation ("->" or "\/"), the origin as "(X, Y)" and the word. */
  function ToString(m: Move): (s: string)
    ensures s == "BOOM" <==> m.bomb
    ensures !m.bomb ==> |s| >= 2 + |m.word| && s[..2] == (if m.horizontal then "->" else "\\/") && s[|s| - |m.word|..] == m.word
  {
    if m.bomb then "BOOM"
    else (if m.horizontal then "->" else "\\/") + "(" + IntToString(m.x) + ", " + IntToString(m.y) + ")" + m.word
  }

  /** Index of the first c in s, or |s|. */
  function FirstIndex(s: string, c: char): (i: nat)
    ensures i <= |s| && (i < |s| ==> s[i] == c)
    ensures forall k :: 0 <= k < i ==> s[k] != c
  {
    if s == [] then 0
    else if s[0] == c then 0
    else 1 + FirstIndex(s[1..], c)
  }

  lemma FirstIndexAt(a: string, b: string, c: char)
    requires forall k :: 0 <= k < |a| ==> a[k] != c
    requires |b| > 0 && b[0] == c
    ensures FirstIndex(a + b, c) == |a|
  {
    assert (a + b)[|a|] == c;
  }

  /** Reads a rendered word move back: orientation, origin and word. */
  function ParseMoveText(s: string): Option<(bool, int, int, string)>
  {
    if |s| < 3 || !(s[..2] == "->" || s[..2] == "\\/") || s[2] != '(' then None
    else ParseCoordinates(s[..2] == "->", s[3..])
  }

  /** Reads the text after the opening parenthesis: `x, y)` and the word. */
  function ParseCoordinates(horizontal: bool, rest: string): Option<(bool, int, int, string)>
  {
    var i := FirstIndex(rest, ',');
    var j := FirstIndex(rest, ')');
    if !(i + 2 <= j < |rest|) || rest[i + 1] != ' ' then None
    else
      match (ParseInt(rest[..i]), ParseInt(rest[i + 2..j]))
      case (Some(x), Some(y)) => Some((horizontal, x, y, rest[j + 1..]))
      case _ => None
  }

  /** Where the separators fall in the text after the opening parenthesis. */
  lemma ParseSeparators(xs: string, ys: string, w: string)
    requires forall k :: 0 <= k < |xs| ==> xs[k] != ',' && xs[k] != ')'
    requires forall k :: 0 <= k < |ys| ==> ys[k] != ')'
    ensures var rest := xs + ", " + ys + ")" + w;
      FirstIndex(rest, ',') == |xs| && FirstIndex(rest, ')') == |xs| + 2 + |ys| &&
      rest[|xs| + 1] == ' ' && rest[..|xs|] == xs &&
      rest[|xs| + 2..|xs| + 2 + |ys|] == ys && rest[|xs| + 3 + |ys|..] == w
  {
    var rest := xs + ", " + ys + ")" + w;
    assert rest == xs + (", " + ys + ")" + w);
    FirstIndexAt(xs, ", " + ys + ")" + w, ',');
    var front := xs + ", " + ys;
    assert rest == front + (")" + w);
    forall k | 0 <= k < |front|
      ensures front[k] != ')'
    {
      if k >= |xs| + 2 { assert front[k] == ys[k - |xs| - 2]; }
    }
    FirstIndexAt(front, ")" + w, ')');
  }

  /** Reading back the coordinates and the word after the parenthesis. */
  lemma ParseRest(horizontal: bool, xs: string, ys: string, w: string)
    requires forall k :: 0 <= k < |xs| ==> xs[k] != ',' && xs[k] != ')'
    requires forall k :: 0 <= k < |ys| ==> ys[k] != ')'
    requires ParseInt(xs).Some? && ParseInt(ys).Some?
    ensures ParseCoordinates(horizontal, xs + ", " + ys + ")" + w) ==
      Some((horizontal, ParseInt(xs).value, ParseInt(ys).value, w))
  {
    ParseSeparators(xs, ys, w);
  }

  /** Reading back the pieces of a rendered move. */
  lemma ParsePieces(arrow: string, xs: string, ys: string, w: string)
    requires arrow == "->" || arrow == "\\/"
    requires forall k :: 0 <= k < |xs| ==> xs[k] != ',' && xs[k] != ')'
    requires forall k :: 0 <= k < |ys| ==> ys[k] != ')'
    requires ParseInt(xs).Some? && ParseInt(ys).Some?
    ensures ParseMoveText(arrow + "(" + xs + ", " + ys + ")" + w) ==
      Some((arrow == "->", ParseInt(xs).value, ParseInt(ys).value, w))
  {
    var s := arrow + "(" + xs + ", " + ys + ")" + w;
    assert s[..2] == arrow && s[2] == '(';
    assert s[3..] == xs + ", " + ys + ")" + w;
    ParseRest(arrow == "->", xs, ys, w);
  }

  /** The rendering of a word move determines its orientation, origin and
      word. */
  lemma ToStringRoundTrip(m: Move)
    requires !m.bomb
    ensures ParseMoveText(ToString(m)) == Some((m.horizontal, m.x, m.y, m.word))
  {
    IntToStringRoundTrip(m.x);
    IntToStringRoundTrip(m.y);
    ParsePieces(if m.horizontal then "->" else "\\/", IntToString(m.x), IntToString(m.y), m.word);
  }
}
