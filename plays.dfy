/** The plays the search chains together: the board after a word move, the
    word moves the search may produce from a position, one step of a chain
    of moves, and the replay of a whole chain from the starting position. */
module Plays {
  import opened Common
  import opened Boards
  import opened Moves
  import opened Patterns
  import opened Crossings

  /** The board has a current word to search from: `PlayerPosition` lies in
      the grid and covers at least one cell. */
  predicate Anchored(b: Board)
  {
    AnchorInGrid(b) && b.pos.length >= 1
  }

  /** Cell (x, y) is one of the len cells from (x0, y0) in the given
      direction. */
  predicate OnWord(x0: int, y0: int, len: int, horizontal: bool, x: int, y: int)
  {
    if horizontal then y == y0 && x0 <= x < x0 + len else x == x0 && y0 <= y < y0 + len
  }

  /** The index in `Tiles` of the j-th cell from (x0, y0) in the given
      direction. */
  function WordCell(b: Board, x0: int, y0: int, horizontal: bool, j: int): (k: nat)
    requires WellFormed(b) && 0 <= j
    requires if horizontal then InGrid(b, x0 + j, y0) else InGrid(b, x0, y0 + j)
    ensures k < |b.tiles|
  {
    if horizontal then Cell(x0 + j, y0, b.width, b.height) else Cell(x0, y0 + j, b.width, b.height)
  }

  // ------------------------------------------------------- board after move

  /** The tiles and owners once the first n letters of the move are
      written: each letter goes into its cell, which becomes the current
      player's. */
  function Stamp(b: Board, m: Move, n: int): (r: (seq<char>, seq<nat>))
    requires WellFormed(b) && MoveInGrid(b, m) && 0 <= n <= |m.word|
    ensures |r.0| == |b.tiles| && |r.1| == |b.mask|
    decreases n
  {
    if n == 0 then (b.tiles, b.mask)
    else
      var prev := Stamp(b, m, n - 1);
      var k := WordCell(b, m.x, m.y, m.horizontal, n - 1);
      (prev.0[k := m.word[n - 1]], prev.1[k := 1])
  }

  /** The owners once the first n cells of the previous current word are
      given back to no player. */
  function Unmark(b: Board, mask: seq<nat>, n: int): (r: seq<nat>)
    requires WellFormed(b) && AnchorInGrid(b) && |mask| == |b.mask| && 0 <= n <= b.pos.length
    ensures |r| == |mask|
    decreases n
  {
    if n == 0 then mask
    else Unmark(b, mask, n - 1)[WordCell(b, b.pos.x, b.pos.y, b.pos.horizontal, n - 1) := 0]
  }

  /** The board the search continues from after a word move: the word's
      letters written and owned, the previous current word's cells given
      back, and the move as the new current word. */
  function AfterMove(b: Board, m: Move): (r: Board)
    requires WellFormed(b) && AnchorInGrid(b) && MoveInGrid(b, m)
    ensures WellFormed(r) && r.width == b.width && r.height == b.height
  {
    var s := Stamp(b, m, |m.word|);
    Board(b.width, b.height, s.0, Unmark(b, s.1, b.pos.length), WordPosition(m.x, m.y, |m.word|, m.horizontal))
  }

  /** The move's letters are the first n cells' contents; the other cells
      are untouched. */
  lemma {:induction false} StampCell(b: Board, m: Move, n: int, x: int, y: int)
    requires WellFormed(b) && MoveInGrid(b, m) && 0 <= n <= |m.word| && InGrid(b, x, y)
    ensures var s, k := Stamp(b, m, n), Cell(x, y, b.width, b.height);
      if OnWord(m.x, m.y, n, m.horizontal, x, y)
      then s.0[k] == m.word[if m.horizontal then x - m.x else y - m.y] && s.1[k] == 1
      else s.0[k] == b.tiles[k] && s.1[k] == b.mask[k]
    decreases n
  {
    if n > 0 {
      StampCell(b, m, n - 1, x, y);
      var c := WordCell(b, m.x, m.y, m.horizontal, n - 1);
      var k := Cell(x, y, b.width, b.height);
      if c == k {
        if m.horizontal {
          CellInjective(m.x + n - 1, m.y, x, y, b.width, b.height);
        } else {
          CellInjective(m.x, m.y + n - 1, x, y, b.width, b.height);
        }
      }
    }
  }

  /** The first n cells of the previous current word are owned by no
      player; the other cells keep their owner. */
  lemma {:induction false} UnmarkCell(b: Board, mask: seq<nat>, n: int, x: int, y: int)
    requires WellFormed(b) && AnchorInGrid(b) && |mask| == |b.mask| && 0 <= n <= b.pos.length
    requires InGrid(b, x, y)
    ensures var k := Cell(x, y, b.width, b.height);
      Unmark(b, mask, n)[k] == if OnWord(b.pos.x, b.pos.y, n, b.pos.horizontal, x, y) then 0 else mask[k]
    decreases n
  {
    if n > 0 {
      UnmarkCell(b, mask, n - 1, x, y);
      var p := b.pos;
      var c := WordCell(b, p.x, p.y, p.horizontal, n - 1);
      var k := Cell(x, y, b.width, b.height);
      if c == k {
        if p.horizontal {
          CellInjective(p.x + n - 1, p.y, x, y, b.width, b.height);
        } else {
          CellInjective(p.x, p.y + n - 1, x, y, b.width, b.height);
        }
      }
    }
  }

  /** After a word move, each cell of the word holds its letter, every
      other cell its old tile; the previous current word's cells belong to
      no player, the new word's other cells to the current player, and the
      rest keep their owner; the word becomes the current word. */
  lemma AfterMoveCell(b: Board, m: Move, x: int, y: int)
    requires WellFormed(b) && AnchorInGrid(b) && MoveInGrid(b, m) && InGrid(b, x, y)
    ensures var r, p := AfterMove(b, m), b.pos;
      Tile(r, x, y) == (if OnWord(m.x, m.y, |m.word|, m.horizontal, x, y)
                        then m.word[if m.horizontal then x - m.x else y - m.y] else Tile(b, x, y)) &&
      Owner(r, x, y) == (if OnWord(p.x, p.y, p.length, p.horizontal, x, y) then 0
                         else if OnWord(m.x, m.y, |m.word|, m.horizontal, x, y) then 1
                         else Owner(b, x, y)) &&
      r.pos == WordPosition(m.x, m.y, |m.word|, m.horizontal)
  {
    StampCell(b, m, |m.word|, x, y);
    UnmarkCell(b, Stamp(b, m, |m.word|).1, b.pos.length, x, y);
  }

  /** The next board of the search after word move m: copies of the tile
      and owner grids, the word's letters written into their cells and
      owned by the current player (1), then the previous current word's
      cells given back to no player (0). */
  method NextBoard(b: Board, m: Move) returns (r: Board)
    requires WellFormed(b) && AnchorInGrid(b) && MoveInGrid(b, m)
    ensures r == AfterMove(b, m)
  {
    var newTiles := new char[|b.tiles|](k requires 0 <= k < |b.tiles| => b.tiles[k]);
    var newMask := new nat[|b.mask|](k requires 0 <= k < |b.mask| => b.mask[k]);
    assert newTiles[..] == b.tiles && newMask[..] == b.mask;
    var j := 0;
    while j < |m.word|
      invariant 0 <= j <= |m.word|
      invariant (newTiles[..], newMask[..]) == Stamp(b, m, j)
    {
      var k := WordCell(b, m.x, m.y, m.horizontal, j);
      newMask[k] := 1;
      newTiles[k] := m.word[j];
      j := j + 1;
    }
    ghost var stamped := newMask[..];
    j := 0;
    while j < b.pos.length
      invariant 0 <= j <= b.pos.length
      invariant newTiles[..] == Stamp(b, m, |m.word|).0
      invariant newMask[..] == Unmark(b, stamped, j)
    {
      newMask[WordCell(b, b.pos.x, b.pos.y, b.pos.horizontal, j)] := 0;
      j := j + 1;
    }
    r := Board(b.width, b.height, newTiles[..], newMask[..], WordPosition(m.x, m.y, |m.word|, m.horizontal));
  }

  // ---------------------------------------------------------- legal moves

  /** The anchor cell of the scan along the move's line: the current
      word's first cell on that line. */
  function ScanStart(b: Board, m: Move): int
  {
    if m.horizontal then b.pos.x else b.pos.y
  }

  /** The move lies on a line the search scans: the current word's own
      line, or a line across one of its cells. */
  predicate Scanned(b: Board, m: Move)
  {
    var p := b.pos;
    if m.horizontal then (if p.horizontal then m.y == p.y else p.y <= m.y < p.y + p.length)
    else (if p.horizontal then p.x <= m.x < p.x + p.length else m.x == p.x)
  }

  /** The move is a word move, in the grid, that matches its line around
      the scan's anchor cell with hand h, and carries its length and the
      hand it leaves. */
  ghost predicate MatchedOn(words: set<string>, b: Board, h: seq<nat>, m: Move)
    requires WellFormed(b)
  {
    !m.bomb && m.handAfter.Some? && m.length == |m.word| &&
    MoveInGrid(b, m) &&
    MatchOk(words, if m.horizontal then Row(b, m.y) else Column(b, m.x), ScanStart(b, m), h,
            WordMatch(m.word, if m.horizontal then m.x else m.y, m.handAfter.value))
  }

  /** A word move the search proposes from board b with hand h, before the
      words across it are checked. */
  ghost predicate Candidate(words: set<string>, b: Board, h: seq<nat>, m: Move)
    requires WellFormed(b) && Anchored(b)
  {
    Scanned(b, m) && MatchedOn(words, b, h, m)
  }

  /** The move as the validator sees it: where its letters go, with the
      kill flag not yet set. */
  function Placed(m: Move): Move
  {
    m.(kill := false)
  }

  /** A word move the search plays: a candidate whose words across it are
      all acceptable, flagged as a kill exactly when one of its letters
      kills. */
  ghost predicate LegalMove(words: set<string>, b: Board, h: seq<nat>, m: Move)
    requires WellFormed(b) && Anchored(b)
  {
    Candidate(words, b, h, m) &&
    (forall i :: 0 <= i < |m.word| ==> CrossOk(words, b, Placed(m), i)) &&
    m.kill == (exists i :: 0 <= i < |m.word| && KillAt(b, Placed(m), i))
  }

  /** A legal move uses at least one tile of the hand and no tile the hand
      does not have. */
  lemma LegalMoveConsumes(words: set<string>, b: Board, h: seq<nat>, m: Move)
    requires WellFormed(b) && (forall w :: w in words ==> IsWord(w))
    requires MatchedOn(words, b, h, m)
    ensures forall c :: 0 <= c < Alphabet ==> m.handAfter.value[c] <= h[c]
    ensures Total(m.handAfter.value) < Total(h)
  {
    MatchConsumesTiles(words, if m.horizontal then Row(b, m.y) else Column(b, m.x), ScanStart(b, m), h,
                       WordMatch(m.word, if m.horizontal then m.x else m.y, m.handAfter.value));
  }

  /** Whether a move is a candidate does not depend on its kill flag. */
  lemma CandidateIgnoresKill(words: set<string>, b: Board, h: seq<nat>, m: Move, k: bool)
    requires WellFormed(b) && Anchored(b) && Candidate(words, b, h, m)
    ensures Candidate(words, b, h, m.(kill := k))
  {
    var c := m.(kill := k);
    assert WordMatch(c.word, if c.horizontal then c.x else c.y, c.handAfter.value) ==
           WordMatch(m.word, if m.horizontal then m.x else m.y, m.handAfter.value);
  }

  /** A candidate whose cross words are all acceptable, given the kill
      flag the validator reports, is a legal move. */
  lemma ValidatedCandidate(words: set<string>, b: Board, h: seq<nat>, m: Move)
    requires WellFormed(b) && Anchored(b) && Candidate(words, b, h, m) && !m.kill
    requires CrossOkBefore(words, b, m, |m.word|)
    ensures LegalMove(words, b, h, m.(kill := KillScanned(words, b, m, |m.word|)))
  {
    var k := KillScanned(words, b, m, |m.word|);
    CandidateIgnoresKill(words, b, h, m, k);
    ScanComplete(words, b, m);
    assert Placed(m.(kill := k)) == m;
  }

  // -------------------------------------------------------------- chains

  /** A position of the search: the board, the hand, and the bombs left. */
  datatype Position = Position(board: Board, hand: seq<nat>, bombs: int)

  /** The board of a position can be searched from. */
  predicate Searchable(s: Position)
  {
    WellFormed(s.board) && Anchored(s.board) && |s.hand| == Alphabet
  }

  /** One move of a chain: a bomb (while bombs are left) blasts the board,
      a legal word move is played; any other move is refused. */
  ghost function Step(words: set<string>, s: Position, m: Move): (r: Option<Position>)
    requires Searchable(s)
    ensures r.Some? ==>
      Searchable(r.value) && r.value.board.width == s.board.width && r.value.board.height == s.board.height
  {
    if m.bomb then
      if s.bombs > 0 && m == BombMove then Some(Position(Bombed(s.board), s.hand, s.bombs - 1)) else None
    else if LegalMove(words, s.board, s.hand, m) then
      Some(Position(AfterMove(s.board, m), m.handAfter.value, s.bombs))
    else None
  }

  /** The position a chain of moves leads to from `start`, or None when one
      of its moves is refused. */
  ghost function Replay(words: set<string>, start: Position, chain: seq<Move>): (r: Option<Position>)
    requires Searchable(start)
    ensures r.Some? ==>
      Searchable(r.value) && r.value.board.width == start.board.width && r.value.board.height == start.board.height
    decreases |chain|
  {
    if chain == [] then Some(start)
    else
      match Replay(words, start, chain[..|chain| - 1])
      case None => None
      case Some(s) => Step(words, s, chain[|chain| - 1])
  }

  /** Extending a chain by one move replays that move from where the chain
      led. */
  lemma ReplayAppend(words: set<string>, start: Position, chain: seq<Move>, m: Move)
    requires Searchable(start) && Replay(words, start, chain).Some?
    ensures Replay(words, start, chain + [m]) == Step(words, Replay(words, start, chain).value, m)
  {
    assert (chain + [m])[..|chain|] == chain;
  }

  /** A chain that can be played, extended by a bomb while bombs are left,
      leads to the blasted board with one bomb less. */
  lemma ReplayBomb(words: set<string>, start: Position, chain: seq<Move>, p: Position)
    requires Searchable(start) && Replay(words, start, chain) == Some(p) && p.bombs > 0
    ensures Replay(words, start, chain + [BombMove]) == Some(Position(Bombed(p.board), p.hand, p.bombs - 1))
    ensures WordMoves(chain + [BombMove]) == WordMoves(chain)
  {
    ReplayAppend(words, start, chain, BombMove);
    WordMovesAppend(chain, BombMove);
  }

  /** A chain that can be played, extended by a legal word move, leads to
      the board after the move and the hand it leaves. */
  lemma ReplayWord(words: set<string>, start: Position, chain: seq<Move>, p: Position, m: Move)
    requires Searchable(start) && Replay(words, start, chain) == Some(p)
    requires LegalMove(words, p.board, p.hand, m)
    ensures Replay(words, start, chain + [m]) == Some(Position(AfterMove(p.board, m), m.handAfter.value, p.bombs))
    ensures WordMoves(chain + [m]) == WordMoves(chain) + 1
  {
    ReplayAppend(words, start, chain, m);
    WordMovesAppend(chain, m);
  }

  /** Number of word moves in a chain. */
  function WordMoves(chain: seq<Move>): nat
  {
    if chain == [] then 0 else WordMoves(chain[..|chain| - 1]) + (if chain[|chain| - 1].bomb then 0 else 1)
  }

  /** Number of bombs in a chain. */
  function BombMoves(chain: seq<Move>): nat
  {
    if chain == [] then 0 else BombMoves(chain[..|chain| - 1]) + (if chain[|chain| - 1].bomb then 1 else 0)
  }

  /** Appending a move adds one word move unless it is a bomb. */
  lemma WordMovesAppend(chain: seq<Move>, m: Move)
    ensures WordMoves(chain + [m]) == WordMoves(chain) + (if m.bomb then 0 else 1)
    ensures BombMoves(chain + [m]) == BombMoves(chain) + (if m.bomb then 1 else 0)
  {
    assert (chain + [m])[..|chain|] == chain;
  }

  /** A playable chain uses one tile or more per word move and one bomb per
      bomb move: it has at most as many word moves as the hand has tiles
      and at most as many bombs as were given. */
  lemma {:induction false} ReplayBudget(words: set<string>, start: Position, chain: seq<Move>)
    requires Searchable(start) && forall w :: w in words ==> IsWord(w)
    requires Replay(words, start, chain).Some?
    ensures var s := Replay(words, start, chain).value;
      Total(s.hand) + WordMoves(chain) <= Total(start.hand) &&
      s.bombs == start.bombs - BombMoves(chain) && BombMoves(chain) <= Max(start.bombs, 0)
    decreases |chain|
  {
    if chain != [] {
      var front, m := chain[..|chain| - 1], chain[|chain| - 1];
      ReplayBudget(words, start, front);
      var s := Replay(words, start, front).value;
      if !m.bomb {
        LegalMoveConsumes(words, s.board, s.hand, m);
      }
    }
  }
}
