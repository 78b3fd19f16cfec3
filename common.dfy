/** Shared vocabulary of the solver model: optional values, letters, letter
    masks, hands and the bits of arithmetic the grid and the search need. */
module Common {

  datatype Option<T> = None | Some(value: T)

  datatype Result<T, E> = Ok(value: T) | Err(error: E)

  // ---------------------------------------------------------------- letters

  /** Number of letter slots in a hand: 'z' - 'a' + 1. */
  const Alphabet: nat := 26

  /** The marker of an empty cell. */
  const Blank: char := '_'

  predicate IsLower(c: char) { 'a' <= c <= 'z' }

  predicate IsUpper(c: char) { 'A' <= c <= 'Z' }

  /** A dictionary word: lower-case ASCII letters only. */
  predicate IsWord(s: string) { forall k :: 0 <= k < |s| ==> IsLower(s[k]) }

  /** `char.ToLower` restricted to ASCII. */
  function Lower(c: char): (r: char)
    ensures IsUpper(c) ==> IsLower(r) && r as int == c as int + 32
    ensures !IsUpper(c) ==> r == c
  {
    if IsUpper(c) then (c as int + 32) as char else c
  }

  /** The slot of a letter in a hand: `c - 'a'`. */
  function Index(c: char): (i: nat)
    requires IsLower(c)
    ensures i < Alphabet && Chr(i) == c
  {
    c as int - 'a' as int
  }

  /** The letter of a hand slot: `(char)('a' + i)`. */
  function Chr(i: nat): (c: char)
    requires i < Alphabet
    ensures IsLower(c) && c as int - 'a' as int == i
  {
    ('a' as int + i) as char
  }

  // ------------------------------------------------------------ letter masks

  /** A 26-bit letter mask of the source (an `int` in which bit i stands for
      letter 'a' + i), represented by the set of its set bits: `m | n` is
      `m + n`, `m & n` is `m * n`, `m & ~(1 << i)` is `m - {i}`, `1 << i` is
      `{i}`, `(m & (1 << i)) == (1 << i)` is `i in m` and `m != 0` is
      `m != {}`. */
  type Mask = set<int>

  /** The letters of a word as a mask. */
  function LetterMask(w: string): (m: Mask)
    requires IsWord(w)
    ensures forall i :: i in m <==> exists k :: 0 <= k < |w| && i == Index(w[k])
  {
    set k | 0 <= k < |w| :: Index(w[k])
  }

  // ------------------------------------------------------------------- hands

  // A hand holds one tile count per letter slot.

  /** Number of tiles in a hand. */
  function Total(h: seq<nat>): nat
  {
    if h == [] then 0 else Total(h[..|h| - 1]) + h[|h| - 1]
  }

  /** Taking tiles out of a hand, at least one of them, lowers its total. */
  lemma {:induction false} TotalDecreases(h: seq<nat>, r: seq<nat>)
    requires |h| == |r|
    requires forall c :: 0 <= c < |h| ==> r[c] <= h[c]
    requires exists c :: 0 <= c < |h| && r[c] < h[c]
    ensures Total(r) < Total(h)
  {
    var n := |h|;
    if r[n - 1] < h[n - 1] {
      TotalMonotone(h[..n - 1], r[..n - 1]);
    } else {
      TotalDecreases(h[..n - 1], r[..n - 1]);
    }
  }

  lemma {:induction false} TotalMonotone(h: seq<nat>, r: seq<nat>)
    requires |h| == |r|
    requires forall c :: 0 <= c < |h| ==> r[c] <= h[c]
    ensures Total(r) <= Total(h)
  {
    if h != [] {
      TotalMonotone(h[..|h| - 1], r[..|r| - 1]);
    }
  }

  /** A hand with no tile left has total zero and conversely. */
  lemma {:induction false} TotalZero(h: seq<nat>)
    ensures Total(h) == 0 <==> forall c :: 0 <= c < |h| ==> h[c] == 0
  {
    if h != [] {
      TotalZero(h[..|h| - 1]);
      assert forall c :: 0 <= c < |h| - 1 ==> h[..|h| - 1][c] == h[c];
    }
  }

  /** Adding one tile to a slot adds one to the total. */
  lemma {:induction false} TotalIncrement(h: seq<nat>, c: int)
    requires 0 <= c < |h|
    ensures Total(h[c := h[c] + 1]) == Total(h) + 1
  {
    var n := |h| - 1;
    assert h[c := h[c] + 1][..n] == if c < n then h[..n][c := h[c] + 1] else h[..n];
    if c < n {
      TotalIncrement(h[..n], c);
    }
  }

  // -------------------------------------------------------------- arithmetic

  function Max(a: int, b: int): int { if a < b then b else a }

  function Min(a: int, b: int): int { if a < b then a else b }

  function Abs(a: int): nat { if a < 0 then -a else a }

  function Pow(b: nat, e: nat): nat
  {
    if e == 0 then 1 else b * Pow(b, e - 1)
  }

  lemma MulLe(a: int, b: int, c: int)
    requires a <= b && 0 <= c
    ensures a * c <= b * c
  {
    assert b * c - a * c == (b - a) * c;
  }

  lemma {:induction false} PowPositive(b: nat, e: nat)
    requires 1 <= b
    ensures 1 <= Pow(b, e)
  {
    if e > 0 {
      PowPositive(b, e - 1);
      MulLe(1, b, Pow(b, e - 1));
    }
  }

  lemma {:induction false} PowMonotone(b: nat, e: nat, f: nat)
    requires 1 <= b && e <= f
    ensures Pow(b, e) <= Pow(b, f)
  {
    if e < f {
      PowMonotone(b, e, f - 1);
      PowPositive(b, f - 1);
      MulLe(1, b, Pow(b, f - 1));
    }
  }

  // ------------------------------------------------------ stack measures

  /** The termination measure of a stack of pending work: an item of size e
      weighs k^e, so popping one item of size e and pushing fewer than k
      items of smaller size makes the stack lighter. */
  function Weight<T>(stack: seq<T>, size: T -> nat, k: nat): nat
  {
    if stack == [] then 0 else Weight(stack[..|stack| - 1], size, k) + Pow(k, size(stack[|stack| - 1]))
  }

  lemma {:induction false} WeightAppend<T>(s: seq<T>, t: seq<T>, size: T -> nat, k: nat)
    ensures Weight(s + t, size, k) == Weight(s, size, k) + Weight(t, size, k)
  {
    if t == [] {
      assert s + t == s;
    } else {
      assert (s + t)[..|s + t| - 1] == s + t[..|t| - 1];
      WeightAppend(s, t[..|t| - 1], size, k);
    }
  }

  /** Adding an item of weight at most p to n items of at most p each. */
  lemma StepBound(w: int, q: int, n: int, p: int)
    requires w <= n * p && q <= p
    ensures w + q <= (n + 1) * p
  {
    assert (n + 1) * p == n * p + p;
  }

  /** Items of size below n weigh at most k^(n - 1) each. */
  lemma {:induction false} WeightBound<T>(stack: seq<T>, size: T -> nat, k: nat, n: nat)
    requires 1 <= k && 1 <= n && forall a :: a in stack ==> size(a) < n
    ensures Weight(stack, size, k) <= |stack| * Pow(k, n - 1)
  {
    if stack != [] {
      var m := |stack| - 1;
      assert forall a :: a in stack[..m] ==> a in stack;
      WeightBound(stack[..m], size, k, n);
      assert stack[m] in stack;
      PowMonotone(k, size(stack[m]), n - 1);
      StepBound(Weight(stack[..m], size, k), Pow(k, size(stack[m])), m, Pow(k, n - 1));
    }
  }

  /** Fewer than k items each smaller than n weigh less than one item of
      size n. */
  lemma LighterChildren<T>(children: seq<T>, size: T -> nat, k: nat, n: nat)
    requires 1 <= n && |children| < k && forall a :: a in children ==> size(a) < n
    ensures Weight(children, size, k) < Pow(k, n)
  {
    WeightBound(children, size, k, n);
    var p := Pow(k, n - 1);
    PowPositive(k, n - 1);
    MulLe(|children|, k - 1, p);
    StepBound((k - 1) * p, 0, k - 1, p);
    assert Pow(k, n) == k * p;
  }

  /** The cell (x, y) of a row-major grid of width w lies inside the grid. */
  lemma CellInGrid(x: int, y: int, w: int, h: int)
    requires 0 <= x < w && 0 <= y < h
    ensures 0 <= x + y * w < w * h
  {
    MulLe(y + 1, h, w);
    MulLe(0, y, w);
  }

  /** The row-major index of cell (x, y) of a w x h grid. */
  function Cell(x: int, y: int, w: int, h: int): (k: nat)
    requires 0 <= x < w && 0 <= y < h
    ensures k < w * h
  {
    CellInGrid(x, y, w, h);
    x + y * w
  }

  /** Distinct cells have distinct indices. */
  lemma CellInjective(x: int, y: int, x': int, y': int, w: int, h: int)
    requires 0 <= x < w && 0 <= y < h && 0 <= x' < w && 0 <= y' < h
    requires Cell(x, y, w, h) == Cell(x', y', w, h)
    ensures x == x' && y == y'
  {
    CellCoordinates(x, y, w);
    CellCoordinates(x', y', w);
  }

  /** Row-major cell indices decode back to their coordinates. */
  lemma CellCoordinates(x: int, y: int, w: int)
    requires 0 <= x < w && 0 <= y
    ensures (x + y * w) / w == y && (x + y * w) % w == x
  {
    var n := x + y * w;
    var q, r := n / w, n % w;
    assert n == q * w + r;
    assert (q - y) * w == x - r;
    if q > y { MulLe(1, q - y, w); }
    if q < y { MulLe(1, y - q, w); }
  }

  /** Every index of a row-major grid is some cell (k % w, k / w). */
  lemma IndexInGrid(k: int, w: int, h: int)
    requires 0 <= k < w * h && 0 < w
    ensures 0 <= k / w < h && 0 <= k % w < w && k == k % w + (k / w) * w
  {
    if k / w >= h {
      MulLe(h, k / w, w);
    }
  }
}
