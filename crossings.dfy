/** The words a move makes across its own direction: through each letter
    the move places runs a line of the board (a column for a horizontal
    move, a row for a vertical one), and the letters next to it on that line
    form a word with it. */
module Crossings {
  import opened Common
  import opened Boards
  import opened Moves

  /** The letters of a word move lie in the grid. */
  predicate MoveInGrid(b: Board, m: Move)
  {
    if m.horizontal then 0 <= m.y < b.height && 0 <= m.x && m.x + |m.word| <= b.width
    else 0 <= m.x < b.width && 0 <= m.y && m.y + |m.word| <= b.height
  }

  /** The line across the move through its i-th letter. */
  function CrossLine(b: Board, m: Move, i: int): (line: seq<char>)
    requires WellFormed(b) && MoveInGrid(b, m) && 0 <= i < |m.word|
    ensures |line| == (if m.horizontal then b.height else b.width)
  {
    if m.horizontal then Column(b, m.x + i) else Row(b, m.y + i)
  }

  /** The owners along the same line. */
  function CrossOwners(b: Board, m: Move, i: int): (owners: seq<nat>)
    requires WellFormed(b) && MoveInGrid(b, m) && 0 <= i < |m.word|
    ensures |owners| == (if m.horizontal then b.height else b.width)
  {
    if m.horizontal then MaskColumn(b, m.x + i) else MaskRow(b, m.y + i)
  }

  /** Where the move's letter sits on the line across it. */
  function CrossAt(m: Move): int
  {
    if m.horizontal then m.y else m.x
  }

  /** The letters just before cell p of a line, up to a blank or the start
      of the line, lower-cased. */
  function RunBefore(line: seq<char>, p: int): (r: seq<char>)
    requires 0 <= p <= |line|
    ensures |r| <= p
  {
    if p == 0 || line[p - 1] == Blank then [] else RunBefore(line, p - 1) + [Lower(line[p - 1])]
  }

  /** The letters from cell q of a line on, up to a blank or the last cell
      of the line, lower-cased: the last cell itself is never taken. */
  function RunAfter(line: seq<char>, q: int): (r: seq<char>)
    requires 0 <= q
    ensures q + 1 < |line| ==> |r| <= |line| - 1 - q
    ensures q + 1 >= |line| ==> r == []
    decreases |line| - q
  {
    if q + 1 >= |line| || line[q] == Blank then [] else [Lower(line[q])] + RunAfter(line, q + 1)
  }

  /** The word a letter placed at cell p of a line makes along it: the run
      before it, the letter, the run after it, lower-cased. */
  function LineWord(line: seq<char>, p: int, letter: char): (w: seq<char>)
    requires 0 <= p < |line|
  {
    RunBefore(line, p) + [Lower(letter)] + RunAfter(line, p + 1)
  }

  /** Cell p of a line, or the non-blank cell just before it, or the
      non-blank cell just after it when that is not the last cell of the
      line, is owned by another player. */
  predicate LineKill(line: seq<char>, owners: seq<nat>, p: int)
    requires |owners| == |line| && 0 <= p < |line|
  {
    (p > 0 && line[p - 1] != Blank && owners[p - 1] > 1) ||
    owners[p] > 1 ||
    (p + 2 < |line| && line[p + 1] != Blank && owners[p + 1] > 1)
  }

  /** The word across the move through its i-th letter. */
  function CrossWord(b: Board, m: Move, i: int): (w: seq<char>)
    requires WellFormed(b) && MoveInGrid(b, m) && 0 <= i < |m.word|
  {
    LineWord(CrossLine(b, m, i), CrossAt(m), m.word[i])
  }

  /** The cross word through letter i is acceptable: one letter long, or a
      dictionary word. */
  predicate CrossOk(words: set<string>, b: Board, m: Move, i: int)
    requires WellFormed(b) && MoveInGrid(b, m) && 0 <= i < |m.word|
  {
    |CrossWord(b, m, i)| <= 1 || CrossWord(b, m, i) in words
  }

  /** The i-th letter of the move lands on a cell another player owns, or
      next to one across the move; the cell just after it is looked at only
      when it is not the last one of the line. */
  predicate KillAt(b: Board, m: Move, i: int)
    requires WellFormed(b) && MoveInGrid(b, m) && 0 <= i < |m.word|
  {
    LineKill(CrossLine(b, m, i), CrossOwners(b, m, i), CrossAt(m))
  }

  /** The verdict on the cross word of each letter of the move, in order. */
  function Verdicts(words: set<string>, b: Board, m: Move): (v: seq<bool>)
    requires WellFormed(b) && MoveInGrid(b, m)
    ensures |v| == |m.word|
  {
    seq(|m.word|, i requires 0 <= i < |m.word| => CrossOk(words, b, m, i))
  }

  /** Whether each letter of the move kills, in order. */
  function Kills(b: Board, m: Move): (v: seq<bool>)
    requires WellFormed(b) && MoveInGrid(b, m)
    ensures |v| == |m.word|
  {
    seq(|m.word|, i requires 0 <= i < |m.word| => KillAt(b, m, i))
  }

  /** Position i of the verdicts and of the kill flags is about letter i. */
  lemma VerdictAt(words: set<string>, b: Board, m: Move, i: int)
    requires WellFormed(b) && MoveInGrid(b, m) && 0 <= i < |m.word|
    ensures Verdicts(words, b, m)[i] == CrossOk(words, b, m, i)
    ensures Kills(b, m)[i] == KillAt(b, m, i)
  {
  }

  /** The first n verdicts all hold. */
  predicate AllHold(v: seq<bool>, n: int)
    requires 0 <= n <= |v|
    decreases n
  {
    n == 0 || (AllHold(v, n - 1) && v[n - 1])
  }

  /** Looking at the first n verdicts in order and stopping after the first
      one that fails, some position looked at has its flag set. */
  predicate FlagScanned(v: seq<bool>, flags: seq<bool>, n: int)
    requires |flags| == |v| && 0 <= n <= |v|
    decreases n
  {
    n > 0 && (FlagScanned(v, flags, n - 1) || (AllHold(v, n - 1) && flags[n - 1]))
  }

  /** The cross words of the letters before the n-th are all acceptable. */
  predicate CrossOkBefore(words: set<string>, b: Board, m: Move, n: int)
    requires WellFormed(b) && MoveInGrid(b, m) && 0 <= n <= |m.word|
  {
    AllHold(Verdicts(words, b, m), n)
  }

  /** Looking at the letters before the n-th in order and stopping after the
      first one whose cross word fails, some letter looked at kills. */
  predicate KillScanned(words: set<string>, b: Board, m: Move, n: int)
    requires WellFormed(b) && MoveInGrid(b, m) && 0 <= n <= |m.word|
  {
    FlagScanned(Verdicts(words, b, m), Kills(b, m), n)
  }

  /** Reversal of a run of letters read backwards. */
  function Reverse(s: seq<char>): (r: seq<char>)
    ensures |r| == |s| && forall k :: 0 <= k < |s| ==> r[k] == s[|s| - 1 - k]
  {
    seq(|s|, k requires 0 <= k < |s| => s[|s| - 1 - k])
  }

  /** The cell the validator reads at offset j across the move's i-th
      letter: (X + i, Y + j) for a horizontal move, (X + j, Y + i) for a
      vertical one. It is cell `CrossAt(m) + j` of the line across. */
  lemma CrossCell(b: Board, m: Move, i: int, j: int)
    requires WellFormed(b) && MoveInGrid(b, m) && 0 <= i < |m.word|
    requires 0 <= CrossAt(m) + j < |CrossLine(b, m, i)|
    ensures var x, y := m.x + (if m.horizontal then i else j), m.y + (if m.horizontal then j else i);
      InGrid(b, x, y) &&
      Tile(b, x, y) == CrossLine(b, m, i)[CrossAt(m) + j] &&
      Owner(b, x, y) == CrossOwners(b, m, i)[CrossAt(m) + j]
  {
    var x, y := m.x + (if m.horizontal then i else j), m.y + (if m.horizontal then j else i);
    if m.horizontal {
      ColumnAt(b, x, y);
      MaskColumnAt(b, x, y);
    } else {
      RowAt(b, y, x);
      MaskRowAt(b, y, x);
    }
  }

  /** One step of the backward scan: reading the letter at q moves it from
      the unread part of the run to the front of the reversed read part. */
  lemma RunBeforeStep(line: seq<char>, q: int, read: seq<char>)
    requires 0 <= q < |line| && line[q] != Blank
    ensures RunBefore(line, q + 1) + Reverse(read) == RunBefore(line, q) + Reverse(read + [Lower(line[q])])
  {
    assert Reverse(read + [Lower(line[q])]) == [Lower(line[q])] + Reverse(read);
  }

  /** One step of the forward scan. */
  lemma RunAfterStep(line: seq<char>, q: int, read: seq<char>)
    requires 0 <= q && q + 1 < |line| && line[q] != Blank
    ensures read + RunAfter(line, q) == (read + [Lower(line[q])]) + RunAfter(line, q + 1)
  {
  }

  // ------------------------------------------------------------------ lemmas

  /** A letter with blank cells (or the edge) on both sides across the move
      makes no cross word: its cross word is the letter alone. */
  lemma LoneLetter(b: Board, m: Move, i: int)
    requires WellFormed(b) && MoveInGrid(b, m) && 0 <= i < |m.word|
    requires var line, p := CrossLine(b, m, i), CrossAt(m);
      (p == 0 || line[p - 1] == Blank) && (p + 1 == |line| || line[p + 1] == Blank)
    ensures CrossWord(b, m, i) == [Lower(m.word[i])]
  {
  }

  /** A move none of whose letters has a neighbour across it is valid
      whatever the dictionary. */
  lemma LonelyMoveValid(words: set<string>, b: Board, m: Move)
    requires WellFormed(b) && MoveInGrid(b, m)
    requires forall i :: 0 <= i < |m.word| ==>
      var line, p := CrossLine(b, m, i), CrossAt(m);
      (p == 0 || line[p - 1] == Blank) && (p + 1 == |line| || line[p + 1] == Blank)
    ensures forall i :: 0 <= i < |m.word| ==> CrossOk(words, b, m, i)
  {
    forall i | 0 <= i < |m.word|
      ensures CrossOk(words, b, m, i)
    {
      LoneLetter(b, m, i);
    }
  }

  /** The forward run never reads the last cell of the line: two lines that
      differ only there give the same run. */
  lemma {:induction false} RunAfterIgnoresLastCell(line: seq<char>, line': seq<char>, q: int)
    requires 0 <= q && |line| == |line'| > 0
    requires line[..|line| - 1] == line'[..|line'| - 1]
    ensures RunAfter(line, q) == RunAfter(line', q)
    decreases |line| - q
  {
    if q + 1 < |line| {
      assert line[q] == line[..|line| - 1][q] == line'[q];
      RunAfterIgnoresLastCell(line, line', q + 1);
    }
  }

  /** For a horizontal move on the row just above the bottom row, a letter
      in the bottom row below it is not part of its cross word: on the
      column "_a" with the move's letter at row 0, the cross word is the
      letter alone. */
  lemma BottomRowIgnored()
    ensures RunBefore("_a", 0) + ['b'] + RunAfter("_a", 1) == "b"
  {
  }

  /** The first n verdicts hold exactly when each of them does. */
  lemma {:induction false} AllHoldEvery(v: seq<bool>, n: int)
    requires 0 <= n <= |v|
    ensures AllHold(v, n) <==> forall k :: 0 <= k < n ==> v[k]
    decreases n
  {
    if n > 0 {
      AllHoldEvery(v, n - 1);
    }
  }

  /** A flag is seen exactly when some position's flag is set and every
      verdict before it holds. */
  lemma {:induction false} FlagScannedSome(v: seq<bool>, flags: seq<bool>, n: int)
    requires |flags| == |v| && 0 <= n <= |v|
    ensures FlagScanned(v, flags, n) <==> exists i :: 0 <= i < n && flags[i] && AllHold(v, i)
    decreases n
  {
    if n > 0 {
      FlagScannedSome(v, flags, n - 1);
      if FlagScanned(v, flags, n - 1) {
        var i :| 0 <= i < n - 1 && flags[i] && AllHold(v, i);
        assert 0 <= i < n;
      }
      if exists i :: 0 <= i < n && flags[i] && AllHold(v, i) {
        var i :| 0 <= i < n && flags[i] && AllHold(v, i);
        if i < n - 1 {
          assert FlagScanned(v, flags, n - 1);
        }
      }
    }
  }

  /** After a failed verdict nothing more holds and no further flag is
      looked at. */
  lemma {:induction false} ScanHalts(v: seq<bool>, flags: seq<bool>, n: int, n': int)
    requires |flags| == |v| && 0 <= n <= n' <= |v| && !AllHold(v, n)
    ensures !AllHold(v, n') && FlagScanned(v, flags, n') == FlagScanned(v, flags, n)
    decreases n'
  {
    if n' > n {
      ScanHalts(v, flags, n, n' - 1);
    }
  }

  /** `CrossOkBefore` is the acceptability of every earlier cross word. */
  lemma CrossOkBeforeAll(words: set<string>, b: Board, m: Move, n: int)
    requires WellFormed(b) && MoveInGrid(b, m) && 0 <= n <= |m.word|
    ensures CrossOkBefore(words, b, m, n) <==> forall k :: 0 <= k < n ==> CrossOk(words, b, m, k)
  {
    AllHoldEvery(Verdicts(words, b, m), n);
    forall k | 0 <= k < n
      ensures Verdicts(words, b, m)[k] == CrossOk(words, b, m, k)
    {
      VerdictAt(words, b, m, k);
    }
  }

  /** `KillScanned` holds exactly when some letter kills while every cross
      word before it is acceptable. */
  lemma KillScannedExists(words: set<string>, b: Board, m: Move, n: int)
    requires WellFormed(b) && MoveInGrid(b, m) && 0 <= n <= |m.word|
    ensures KillScanned(words, b, m, n) <==>
      exists i :: 0 <= i < n && KillAt(b, m, i) && CrossOkBefore(words, b, m, i)
  {
    FlagScannedSome(Verdicts(words, b, m), Kills(b, m), n);
    forall k | 0 <= k < n
      ensures Kills(b, m)[k] == KillAt(b, m, k)
    {
      VerdictAt(words, b, m, k);
    }
  }

  /** When every verdict holds, the scan looks at every position, and a
      flag is seen exactly when some position has one. */
  lemma ScanAllPass(v: seq<bool>, flags: seq<bool>)
    requires |flags| == |v| && AllHold(v, |v|)
    ensures forall i :: 0 <= i < |v| ==> v[i]
    ensures FlagScanned(v, flags, |v|) <==> exists i :: 0 <= i < |v| && flags[i]
  {
    AllHoldEvery(v, |v|);
    FlagScannedSome(v, flags, |v|);
    forall i | 0 <= i < |v|
      ensures AllHold(v, i)
    {
      AllHoldEvery(v, i);
    }
  }

  /** A scan that passes every letter looks at all of them: each cross
      word is acceptable, and a kill is seen exactly when some letter
      kills. */
  lemma ScanComplete(words: set<string>, b: Board, m: Move)
    requires WellFormed(b) && MoveInGrid(b, m) && CrossOkBefore(words, b, m, |m.word|)
    ensures forall i :: 0 <= i < |m.word| ==> CrossOk(words, b, m, i)
    ensures KillScanned(words, b, m, |m.word|) <==> exists i :: 0 <= i < |m.word| && KillAt(b, m, i)
  {
    ScanAllPass(Verdicts(words, b, m), Kills(b, m));
    forall k | 0 <= k < |m.word|
      ensures Verdicts(words, b, m)[k] == CrossOk(words, b, m, k)
      ensures Kills(b, m)[k] == KillAt(b, m, k)
    {
      VerdictAt(words, b, m, k);
    }
  }

  /** One more letter of the scan: its verdict joins the others, and its
      kill flag counts when every cross word before it is acceptable. */
  lemma ScanStep(words: set<string>, b: Board, m: Move, i: int)
    requires WellFormed(b) && MoveInGrid(b, m) && 0 <= i < |m.word|
    ensures CrossOkBefore(words, b, m, i + 1) == (CrossOkBefore(words, b, m, i) && CrossOk(words, b, m, i))
    ensures KillScanned(words, b, m, i + 1) ==
      (KillScanned(words, b, m, i) || (CrossOkBefore(words, b, m, i) && KillAt(b, m, i)))
  {
    VerdictAt(words, b, m, i);
  }

  /** Once a cross word has failed, no later letter is looked at: the scan
      and its verdict stay as they were. */
  lemma ScanStops(words: set<string>, b: Board, m: Move, n: int, n': int)
    requires WellFormed(b) && MoveInGrid(b, m) && 0 <= n <= n' <= |m.word|
    requires !CrossOkBefore(words, b, m, n)
    ensures !CrossOkBefore(words, b, m, n') && KillScanned(words, b, m, n') == KillScanned(words, b, m, n)
  {
    ScanHalts(Verdicts(words, b, m), Kills(b, m), n, n');
  }

  /** Where the scan ends, at the end of the move or just after the first
      failed cross word, its verdict and kill flag are those of the whole
      move. */
  lemma ScanFinished(words: set<string>, b: Board, m: Move, n: int)
    requires WellFormed(b) && MoveInGrid(b, m) && 0 <= n <= |m.word|
    requires n == |m.word| || !CrossOkBefore(words, b, m, n)
    ensures CrossOkBefore(words, b, m, |m.word|) == CrossOkBefore(words, b, m, n)
    ensures KillScanned(words, b, m, |m.word|) == KillScanned(words, b, m, n)
  {
    if n < |m.word| {
      ScanStops(words, b, m, n, |m.word|);
    }
  }

}
