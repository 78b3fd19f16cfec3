/** The solver (`Solver`): the dictionary index, the pattern matcher, the
    validation of perpendicular words and the move search. */
module Solving {
  import opened Common
  import opened Dictionary
  import opened Patterns
  import opened Boards
  import opened Moves
  import opened Crossings
  import opened Plays

  /** An entry of the matcher's stack of attempts: a partly filled copy of
      the line, the hand left, the letters still worth trying and the gaps
      still to fill, nearest first. */
  datatype Attempt = Attempt(pattern: seq<char>, hand: seq<nat>, mask: Mask, gaps: seq<int>)

  ghost predicate AttemptOk(line: seq<char>, ps: int, hand0: seq<nat>, a: Attempt)
  {
    AttemptInv(line, ps, hand0, a.pattern, a.hand, a.mask, a.gaps)
  }

  /** Narrowing the mask of letters left to try keeps the invariant. */
  lemma Narrowed(line: seq<char>, ps: int, hand0: seq<nat>, P: seq<char>, H: seq<nat>, M: Mask, M': Mask, G: seq<int>)
    requires AttemptInv(line, ps, hand0, P, H, M, G) && M' <= M
    ensures AttemptOk(line, ps, hand0, Attempt(P, H, M', G))
  {
  }

  /** The size of an attempt in the matcher's termination measure: its
      number of pending gaps. An attempt with k gaps weighs 53^k, more than
      the 52 children with fewer gaps it can push. */
  function Pending(a: Attempt): nat
  {
    |a.gaps|
  }

  /** One expansion adds at most 52 matches and 52 children, each child with
      fewer gaps: the stack gets lighter and the bound on the matches still
      holds. */
  lemma ExpansionWeight(found: nat, children: nat, w: nat, k: nat)
    requires 1 <= k && found <= 52 && children <= 52 && w <= children * Pow(53, k - 1)
    ensures found + 52 * w <= 52 * Pow(53, k) && w < Pow(53, k)
  {
    var p := Pow(53, k - 1);
    PowPositive(53, k - 1);
    MulLe(children, 52, p);
    MulLe(found, 52, 1);
    MulLe(1, p, 52);
    assert Pow(53, k) == 53 * p;
  }

  lemma ExpansionBound(found: nat, children: seq<Attempt>, k: nat)
    requires 1 <= k && found <= 52 && |children| <= 52
    requires forall c :: c in children ==> |c.gaps| < k
    ensures found + 52 * Weight(children, Pending, 53) <= 52 * Pow(53, k) && Weight(children, Pending, 53) < Pow(53, k)
  {
    WeightBound(children, Pending, 53, k);
    ExpansionWeight(found, |children|, Weight(children, Pending, 53), k);
  }

  // ------------------------------------------------------------- search

  /** An entry of the search's stack: the board and hand reached, the chain
      of moves that reaches them, the bombs left and the depth of the
      chain. */
  datatype State = State(board: Board, hand: seq<nat>, chain: seq<Move>, bombs: int, depth: int)

  function At(s: State): Position
  {
    Position(s.board, s.hand, s.bombs)
  }

  /** The stack entry replays to its position from the search's start, its
      depth is one more than its word moves, and it lies within the depth
      limit (a limit below 1 is no limit). */
  ghost predicate StateOk(words: set<string>, start: Position, maxDepth: int, s: State)
    requires Searchable(start)
  {
    Searchable(At(s)) && s.board.width == start.board.width && s.board.height == start.board.height &&
    Replay(words, start, s.chain) == Some(At(s)) &&
    s.depth == 1 + WordMoves(s.chain) && (maxDepth >= 1 ==> s.depth <= maxDepth)
  }

  /** A chain the search reports: it can be played from the start, and it
      has no more word moves than the depth limit. */
  ghost predicate Finished(words: set<string>, start: Position, maxDepth: int, chain: seq<Move>)
    requires Searchable(start)
  {
    Replay(words, start, chain).Some? && (maxDepth >= 1 ==> WordMoves(chain) <= maxDepth)
  }

  /** Playing a legal move from a stack entry: the chain extended by the
      move can be played, it is reported within the depth limit when the
      entry is at the limit, and the entry it leads to is well placed
      below the limit and holds fewer tiles. */
  lemma PlayedState(words: set<string>, start: Position, maxDepth: int, s: State, m: Move, t: State)
    requires AllWords(words) && Searchable(start) && StateOk(words, start, maxDepth, s)
    requires LegalMove(words, s.board, s.hand, m)
    requires t == State(AfterMove(s.board, m), m.handAfter.value, s.chain + [m], s.bombs, s.depth + 1)
    ensures Finished(words, start, maxDepth, t.chain) && Size(t) < Size(s)
    ensures s.depth != maxDepth ==> StateOk(words, start, maxDepth, t)
  {
    ReplayWord(words, start, s.chain, At(s), m);
    LegalMoveConsumes(words, s.board, s.hand, m);
    assert At(t) == Position(AfterMove(At(s).board, m), m.handAfter.value, At(s).bombs);
  }

  /** The entries a pass pushes for one child, each well placed and
      smaller than the entry popped. */
  lemma PushedOk(words: set<string>, start: Position, maxDepth: int, s: State, a: State, b: State, pushed: seq<State>)
    requires Searchable(start)
    requires StateOk(words, start, maxDepth, a) && Size(a) < Size(s)
    requires StateOk(words, start, maxDepth, b) && Size(b) < Size(s)
    requires pushed == [a] || pushed == [a, b]
    ensures forall t :: t in pushed ==> StateOk(words, start, maxDepth, t) && Size(t) < Size(s)
  {
  }

  /** A bomb after a stack entry with bombs left: the blasted entry is well
      placed and smaller. */
  lemma BlastedState(words: set<string>, start: Position, maxDepth: int, t: State, u: State)
    requires Searchable(start) && StateOk(words, start, maxDepth, t) && t.bombs > 0
    requires u == State(Bombed(t.board), t.hand, t.chain + [BombMove], t.bombs - 1, t.depth)
    ensures StateOk(words, start, maxDepth, u) && Size(u) < Size(t)
  {
    ReplayBomb(words, start, t.chain, At(t));
    assert At(u) == Position(Bombed(At(t).board), At(t).hand, At(t).bombs - 1);
  }

  /** The size of a stack entry in the search's termination measure: the
      tiles and the bombs it has left. */
  function Size(s: State): nat
  {
    Total(s.hand) + (if s.bombs > 0 then s.bombs else 0)
  }

  /** The longer side of a width by height board: the length of the
      buffer. */
  function Extent(width: nat, height: nat): nat
  {
    if width < height then height else width
  }

  /** The bound on the matches of one line of the board. */
  function LineLimit(width: nat, height: nat): nat
  {
    52 * Pow(53, Extent(width, height))
  }

  /** More than the entries one pass of the search can push: two per match
      of the current word's line and of the lines across it. */
  function Branching(width: nat, height: nat): nat
  {
    2 * ((1 + Extent(width, height)) * LineLimit(width, height)) + 1
  }

  /** The pushed entries of one pass are fewer than `Branching`. */
  lemma BranchBound(b: Board, n: int)
    requires WellFormed(b) && AnchorInGrid(b)
    requires n <= 2 * ((1 + b.pos.length) * LineLimit(b.width, b.height))
    ensures n < Branching(b.width, b.height)
  {
    MulLe(1 + b.pos.length, 1 + Extent(b.width, b.height), LineLimit(b.width, b.height));
  }

  /** Popping an entry and pushing fewer than k smaller ones makes the
      stack lighter. */
  lemma PushLighter(rest: seq<State>, s: State, pushed: seq<State>, k: nat)
    requires |pushed| < k && forall t :: t in pushed ==> Size(t) < Size(s)
    ensures Weight(rest + pushed, Size, k) < Weight(rest, Size, k) + Pow(k, Size(s))
  {
    WeightAppend(rest, pushed, Size, k);
    if pushed == [] {
      PowPositive(k, Size(s));
    } else {
      assert pushed[0] in pushed;
      LighterChildren(pushed, Size, k, Size(s));
    }
  }

  /** A chain the search closes with its last move: a word move that uses
      up the hand or brings the chain to the depth limit. */
  predicate Closing(chain: seq<Move>, maxDepth: int)
  {
    chain != [] && !chain[|chain| - 1].bomb &&
    (HandAfterMoveLength(chain[|chain| - 1]) == 0 || WordMoves(chain) == maxDepth)
  }

  /** A child move of a stack entry that can be played on its board. */
  predicate Playable(s: State, child: Move)
  {
    WellFormed(s.board) && AnchorInGrid(s.board) && MoveInGrid(s.board, child) && child.handAfter.Some?
  }

  /** Every child of a list can be played. */
  predicate AllPlayable(s: State, children: seq<Move>)
  {
    forall i :: 0 <= i < |children| ==> Playable(s, children[i])
  }

  /** What playing one child reports: its chain, when the hand it leaves
      is used up or the entry is at the depth limit. */
  function ChildReported(s: State, child: Move, maxDepth: int): seq<seq<Move>>
  {
    if HandAfterMoveLength(child) == 0 || s.depth == maxDepth then [s.chain + [child]] else []
  }

  /** What playing one child pushes otherwise: the entry after the move,
      then its bombed version while bombs are left. */
  function ChildPushed(s: State, child: Move, maxDepth: int): seq<State>
    requires Playable(s, child)
  {
    if HandAfterMoveLength(child) == 0 || s.depth == maxDepth then []
    else
      var played := State(AfterMove(s.board, child), child.handAfter.value, s.chain + [child], s.bombs, s.depth + 1);
      if s.bombs > 0
      then [played, State(Bombed(played.board), played.hand, played.chain + [BombMove], s.bombs - 1, played.depth)]
      else [played]
  }

  /** The chains the children of a pass report, child by child in order. */
  function ChildrenReported(s: State, children: seq<Move>, maxDepth: int): seq<seq<Move>>
    decreases |children|
  {
    if children == [] then []
    else ChildrenReported(s, children[..|children| - 1], maxDepth) + ChildReported(s, children[|children| - 1], maxDepth)
  }

  /** The entries the children of a pass push, child by child in order. */
  function ChildrenPushed(s: State, children: seq<Move>, maxDepth: int): seq<State>
    requires AllPlayable(s, children)
    decreases |children|
  {
    if children == [] then []
    else ChildrenPushed(s, children[..|children| - 1], maxDepth) + ChildPushed(s, children[|children| - 1], maxDepth)
  }

  /** What a pass reports can be played within the depth limit, and what
      it pushes is well placed and smaller than the popped entry `s`. */
  ghost predicate OutcomeSound(words: set<string>, start: Position, maxDepth: int, s: State,
                               reported: seq<seq<Move>>, pushed: seq<State>)
    requires Searchable(start)
  {
    (forall c :: c in reported ==> Finished(words, start, maxDepth, c)) &&
    (forall t :: t in pushed ==> StateOk(words, start, maxDepth, t) && Size(t) < Size(s))
  }

  /** The chain of a well-placed entry can be reported. */
  lemma EntryFinished(words: set<string>, start: Position, maxDepth: int, s: State)
    requires Searchable(start) && StateOk(words, start, maxDepth, s)
    ensures OutcomeSound(words, start, maxDepth, s, [s.chain], [])
  {
  }

  /** Two sound outcomes together are sound. */
  lemma OutcomeConcat(words: set<string>, start: Position, maxDepth: int, s: State,
                      r1: seq<seq<Move>>, p1: seq<State>, r2: seq<seq<Move>>, p2: seq<State>)
    requires Searchable(start)
    requires OutcomeSound(words, start, maxDepth, s, r1, p1) && OutcomeSound(words, start, maxDepth, s, r2, p2)
    ensures OutcomeSound(words, start, maxDepth, s, r1 + r2, p1 + p2)
  {
  }

  /** Playing a legal move from a well-placed entry: a reported chain can
      be played within the depth limit, and each pushed entry (at most two)
      is well placed and holds fewer tiles or bombs. */
  lemma ChildSound(words: set<string>, start: Position, maxDepth: int, s: State, child: Move)
    requires AllWords(words) && Searchable(start) && StateOk(words, start, maxDepth, s)
    requires LegalMove(words, s.board, s.hand, child)
    ensures Playable(s, child) && !child.bomb
    ensures |ChildPushed(s, child, maxDepth)| <= 2
    ensures OutcomeSound(words, start, maxDepth, s, ChildReported(s, child, maxDepth), ChildPushed(s, child, maxDepth))
  {
    var played := State(AfterMove(s.board, child), child.handAfter.value, s.chain + [child], s.bombs, s.depth + 1);
    PlayedState(words, start, maxDepth, s, child, played);
    PlayedOutcome(words, start, maxDepth, s, child, played);
  }

  /** The outcome of one child, from the facts about the entry it leads
      to. */
  lemma PlayedOutcome(words: set<string>, start: Position, maxDepth: int, s: State, child: Move, played: State)
    requires Searchable(start) && Playable(s, child)
    requires played == State(AfterMove(s.board, child), child.handAfter.value, s.chain + [child], s.bombs, s.depth + 1)
    requires Finished(words, start, maxDepth, played.chain) && Size(played) < Size(s)
    requires s.depth != maxDepth ==> StateOk(words, start, maxDepth, played)
    ensures |ChildPushed(s, child, maxDepth)| <= 2
    ensures OutcomeSound(words, start, maxDepth, s, ChildReported(s, child, maxDepth), ChildPushed(s, child, maxDepth))
  {
    if !(HandAfterMoveLength(child) == 0 || s.depth == maxDepth) {
      if s.bombs > 0 {
        var blasted := State(Bombed(played.board), played.hand, played.chain + [BombMove], s.bombs - 1, played.depth);
        BlastedState(words, start, maxDepth, played, blasted);
        assert ChildPushed(s, child, maxDepth) == [played, blasted];
        PushedOk(words, start, maxDepth, s, played, blasted, [played, blasted]);
      } else {
        assert ChildPushed(s, child, maxDepth) == [played];
        PushedOk(words, start, maxDepth, s, played, played, [played]);
      }
    }
  }

  /** Playing the children up to the i-th adds that child's outcome. */
  lemma ChildrenStep(s: State, children: seq<Move>, i: int, maxDepth: int)
    requires 0 <= i < |children| && forall j :: 0 <= j <= i ==> Playable(s, children[j])
    ensures AllPlayable(s, children[..i]) && AllPlayable(s, children[..i + 1])
    ensures ChildrenReported(s, children[..i + 1], maxDepth) ==
      ChildrenReported(s, children[..i], maxDepth) + ChildReported(s, children[i], maxDepth)
    ensures ChildrenPushed(s, children[..i + 1], maxDepth) ==
      ChildrenPushed(s, children[..i], maxDepth) + ChildPushed(s, children[i], maxDepth)
  {
    var prefix := children[..i + 1];
    assert prefix[..i] == children[..i] && prefix[i] == children[i];
  }

  /** The first i children of a pass have been played: `finished` and
      `pushed` are their outcomes, and these are sound. */
  ghost predicate PlayedUpTo(words: set<string>, start: Position, maxDepth: int, s: State, children: seq<Move>, i: int,
                             finished: seq<seq<Move>>, pushed: seq<State>)
    requires Searchable(start)
  {
    0 <= i <= |children| && |pushed| <= 2 * i &&
    AllPlayable(s, children[..i]) && (forall j :: 0 <= j < i ==> !children[j].bomb) &&
    finished == ChildrenReported(s, children[..i], maxDepth) &&
    pushed == ChildrenPushed(s, children[..i], maxDepth) &&
    OutcomeSound(words, start, maxDepth, s, finished, pushed)
  }

  /** Playing child i after the first i. */
  lemma PlayedNext(words: set<string>, start: Position, maxDepth: int, s: State, children: seq<Move>, i: int,
                   finished: seq<seq<Move>>, pushed: seq<State>, done: seq<seq<Move>>, next: seq<State>)
    requires Searchable(start) && PlayedUpTo(words, start, maxDepth, s, children, i, finished, pushed) && i < |children|
    requires Playable(s, children[i]) && !children[i].bomb
    requires done == ChildReported(s, children[i], maxDepth) && next == ChildPushed(s, children[i], maxDepth)
    requires |next| <= 2 && OutcomeSound(words, start, maxDepth, s, done, next)
    ensures PlayedUpTo(words, start, maxDepth, s, children, i + 1, finished + done, pushed + next)
  {
    assert forall j :: 0 <= j < i ==> children[..i][j] == children[j];
    ChildrenStep(s, children, i, maxDepth);
    OutcomeConcat(words, start, maxDepth, s, finished, pushed, done, next);
  }

  /** All the children of a pass played. */
  lemma PlayedAll(words: set<string>, start: Position, maxDepth: int, s: State, children: seq<Move>,
                  finished: seq<seq<Move>>, pushed: seq<State>)
    requires Searchable(start) && PlayedUpTo(words, start, maxDepth, s, children, |children|, finished, pushed)
    ensures AllPlayable(s, children) && forall i :: 0 <= i < |children| ==> !children[i].bomb
    ensures finished == ChildrenReported(s, children, maxDepth) && pushed == ChildrenPushed(s, children, maxDepth)
    ensures |pushed| <= 2 * |children|
    ensures OutcomeSound(words, start, maxDepth, s, finished, pushed)
  {
    assert children[..|children|] == children;
  }

  /** From an entry whose depth counts its word moves, a word move's
      reported chain is closed, and the entries it pushes are not. */
  lemma ChildOutcome(s: State, child: Move, maxDepth: int)
    requires Playable(s, child) && !child.bomb && s.depth == 1 + WordMoves(s.chain)
    ensures forall c :: c in ChildReported(s, child, maxDepth) ==> Closing(c, maxDepth)
    ensures forall t :: t in ChildPushed(s, child, maxDepth) ==> !Closing(t.chain, maxDepth)
  {
    WordMovesAppend(s.chain, child);
  }

  /** The same for all the children of a pass. */
  lemma {:induction false} ChildrenOutcome(s: State, children: seq<Move>, maxDepth: int)
    requires AllPlayable(s, children) && forall i :: 0 <= i < |children| ==> !children[i].bomb
    requires s.depth == 1 + WordMoves(s.chain)
    ensures forall c :: c in ChildrenReported(s, children, maxDepth) ==> Closing(c, maxDepth)
    ensures forall t :: t in ChildrenPushed(s, children, maxDepth) ==> !Closing(t.chain, maxDepth)
    decreases |children|
  {
    if children != [] {
      var n := |children| - 1;
      ChildrenOutcome(s, children[..n], maxDepth);
      ChildOutcome(s, children[n], maxDepth);
    }
  }

  /** What a pass reports and pushes: the chains the children close, and
      the entry's own chain when it has no valid move; the entries pushed
      are not closed, and all of it is sound. */
  lemma PassOutcome(words: set<string>, start: Position, maxDepth: int, s: State, children: seq<Move>,
                    reported: seq<seq<Move>>, pushed: seq<State>)
    requires Searchable(start) && StateOk(words, start, maxDepth, s)
    requires AllPlayable(s, children) && forall i :: 0 <= i < |children| ==> !children[i].bomb
    requires OutcomeSound(words, start, maxDepth, s, ChildrenReported(s, children, maxDepth), pushed)
    requires reported == ChildrenReported(s, children, maxDepth) + (if children == [] then [s.chain] else [])
    requires pushed == ChildrenPushed(s, children, maxDepth)
    ensures forall c :: c in reported ==> Closing(c, maxDepth) || (children == [] && c == s.chain)
    ensures forall t :: t in pushed ==> !Closing(t.chain, maxDepth)
    ensures OutcomeSound(words, start, maxDepth, s, reported, pushed)
  {
    ChildrenOutcome(s, children, maxDepth);
    if children == [] {
      EntryFinished(words, start, maxDepth, s);
      OutcomeConcat(words, start, maxDepth, s, ChildrenReported(s, children, maxDepth), pushed, [s.chain], []);
      assert pushed + [] == pushed;
    } else {
      assert reported == ChildrenReported(s, children, maxDepth);
    }
  }

  /** The invariant of the search's loop: the stack holds well-placed
      entries whose chains are not closed; every chain reported so far can
      be played and is closed or belongs to a dead end; every dead end is
      a well-placed entry, not closed, whose chain was reported. */
  ghost predicate SearchInv(words: set<string>, start: Position, maxDepth: int,
                            stack: seq<State>, chains: seq<seq<Move>>, deadEnds: seq<State>)
    requires Searchable(start)
  {
    (forall t :: t in stack ==> StateOk(words, start, maxDepth, t) && !Closing(t.chain, maxDepth)) &&
    (forall c :: c in chains ==> Finished(words, start, maxDepth, c)) &&
    (forall c :: c in chains ==> Closing(c, maxDepth) || exists t :: t in deadEnds && t.chain == c) &&
    (forall t :: t in deadEnds ==> t.chain in chains && !Closing(t.chain, maxDepth) && StateOk(words, start, maxDepth, t))
  }

  /** One pass of the search as it happened: the popped entry and its
      valid moves. */
  datatype PassRecord = PassRecord(entry: State, children: seq<Move>)

  /** What one pass reports: its children's chains in order, and the
      entry's own chain when it has no valid move. */
  function PassReported(p: PassRecord, maxDepth: int): seq<seq<Move>>
  {
    ChildrenReported(p.entry, p.children, maxDepth) + (if p.children == [] then [p.entry.chain] else [])
  }

  /** What a sequence of passes reports, pass by pass in order. */
  function Emitted(passes: seq<PassRecord>, maxDepth: int): seq<seq<Move>>
    decreases |passes|
  {
    if passes == [] then []
    else Emitted(passes[..|passes| - 1], maxDepth) + PassReported(passes[|passes| - 1], maxDepth)
  }

  /** The popped entries whose pass found no valid move, in order. */
  function DeadEnds(passes: seq<PassRecord>): seq<State>
    decreases |passes|
  {
    if passes == [] then []
    else
      var p := passes[|passes| - 1];
      DeadEnds(passes[..|passes| - 1]) + (if p.children == [] then [p.entry] else [])
  }

  /** Every pass's children can be played on its entry's board. */
  predicate PassesPlayable(passes: seq<PassRecord>)
  {
    forall i :: 0 <= i < |passes| ==> AllPlayable(passes[i].entry, passes[i].children)
  }

  /** The entries a sequence of passes pushes, pass by pass in order. */
  function AllPushed(passes: seq<PassRecord>, maxDepth: int): seq<State>
    requires PassesPlayable(passes)
    decreases |passes|
  {
    if passes == [] then []
    else
      var p := passes[|passes| - 1];
      AllPushed(passes[..|passes| - 1], maxDepth) + ChildrenPushed(p.entry, p.children, maxDepth)
  }

  /** The popped entries, in the order they were popped. */
  function Entries(passes: seq<PassRecord>): (r: seq<State>)
    ensures |r| == |passes| && forall i :: 0 <= i < |passes| ==> r[i] == passes[i].entry
  {
    seq(|passes|, i requires 0 <= i < |passes| => passes[i].entry)
  }

  /** Every pass of the trace starts from a well-placed entry, and its
      children are legal moves there. */
  ghost predicate Traced(words: set<string>, start: Position, maxDepth: int, passes: seq<PassRecord>)
    requires Searchable(start)
  {
    PassesPlayable(passes) &&
    forall i :: 0 <= i < |passes| ==>
      StateOk(words, start, maxDepth, passes[i].entry) &&
      forall c :: c in passes[i].children ==> LegalMove(words, passes[i].entry.board, passes[i].entry.hand, c)
  }

  /** The trace invariant of the search's loop: the chains and the dead
      ends are those the passes so far emit; the entries popped and the
      entries still on the stack are, counted with multiplicity, the first
      entries and everything pushed; and the search has something left to
      pop or has reported something. */
  ghost predicate TraceInv(words: set<string>, start: Position, maxDepth: int, stack: seq<State>,
                           chains: seq<seq<Move>>, deadEnds: seq<State>, passes: seq<PassRecord>)
    requires Searchable(start)
  {
    Traced(words, start, maxDepth, passes) &&
    chains == Emitted(passes, maxDepth) && deadEnds == DeadEnds(passes) &&
    multiset(Entries(passes)) + multiset(stack) == multiset(InitialStack(start) + AllPushed(passes, maxDepth)) &&
    (stack != [] || chains != [])
  }

  /** A child reports its chain or pushes an entry. */
  lemma ChildEmit(s: State, child: Move, maxDepth: int)
    requires Playable(s, child)
    ensures |ChildReported(s, child, maxDepth)| + |ChildPushed(s, child, maxDepth)| >= 1
  {
  }

  /** The children before the last of a playable list are playable. */
  lemma PlayablePrefix(s: State, children: seq<Move>)
    requires AllPlayable(s, children) && children != []
    ensures AllPlayable(s, children[..|children| - 1]) && Playable(s, children[|children| - 1])
  {
    var n := |children| - 1;
    forall i | 0 <= i < n ensures Playable(s, children[..n][i]) {
      assert children[..n][i] == children[i];
    }
  }

  /** Every child of a pass reports its chain or pushes an entry. */
  lemma {:induction false} ChildrenEmit(s: State, children: seq<Move>, maxDepth: int)
    requires AllPlayable(s, children)
    ensures |ChildrenReported(s, children, maxDepth)| + |ChildrenPushed(s, children, maxDepth)| >= |children|
    decreases |children|
  {
    if children != [] {
      var n := |children| - 1;
      PlayablePrefix(s, children);
      ChildrenEmit(s, children[..n], maxDepth);
      ChildEmit(s, children[n], maxDepth);
    }
  }

  /** Before the first pass the trace invariant holds for the first
      entries. */
  lemma TraceInit(words: set<string>, start: Position, maxDepth: int)
    requires Searchable(start)
    ensures TraceInv(words, start, maxDepth, InitialStack(start), [], [], [])
  {
    assert InitialStack(start) + AllPushed([], maxDepth) == InitialStack(start);
  }

  /** A pass from a well-placed entry with legal children extends a
      trace. */
  lemma TracedSnoc(words: set<string>, start: Position, maxDepth: int, passes: seq<PassRecord>, p: PassRecord)
    requires Searchable(start) && Traced(words, start, maxDepth, passes)
    requires StateOk(words, start, maxDepth, p.entry) && AllPlayable(p.entry, p.children)
    requires forall c :: c in p.children ==> LegalMove(words, p.entry.board, p.entry.hand, c)
    ensures Traced(words, start, maxDepth, passes + [p])
  {
    var passes' := passes + [p];
    forall i | 0 <= i < |passes'|
      ensures AllPlayable(passes'[i].entry, passes'[i].children)
      ensures StateOk(words, start, maxDepth, passes'[i].entry)
      ensures forall c :: c in passes'[i].children ==> LegalMove(words, passes'[i].entry.board, passes'[i].entry.hand, c)
    {
      if i < |passes| {
        assert passes'[i] == passes[i];
      }
    }
  }

  /** Recording one more pass extends what the trace emits, its dead ends,
      its pushes and its popped entries by that pass's own. */
  lemma TraceSnoc(passes: seq<PassRecord>, p: PassRecord, maxDepth: int)
    requires PassesPlayable(passes + [p])
    ensures PassesPlayable(passes)
    ensures Emitted(passes + [p], maxDepth) == Emitted(passes, maxDepth) + PassReported(p, maxDepth)
    ensures DeadEnds(passes + [p]) == DeadEnds(passes) + (if p.children == [] then [p.entry] else [])
    ensures AllPushed(passes + [p], maxDepth) == AllPushed(passes, maxDepth) + ChildrenPushed(p.entry, p.children, maxDepth)
    ensures Entries(passes + [p]) == Entries(passes) + [p.entry]
  {
    var passes' := passes + [p];
    assert passes'[..|passes|] == passes;
    forall i | 0 <= i < |passes| ensures AllPlayable(passes[i].entry, passes[i].children) {
      assert passes'[i] == passes[i];
    }
  }

  /** Popping `s` and pushing `pushed` while recording `s` as popped keeps
      the count of popped and waiting entries equal to the count of first
      and pushed ones. */
  lemma PoppedCount(popped: seq<State>, stack: seq<State>, pushed: seq<State>, first: seq<State>, before: seq<State>)
    requires stack != [] && multiset(popped) + multiset(stack) == multiset(first + before)
    ensures multiset(popped + [stack[|stack| - 1]]) + multiset(stack[..|stack| - 1] + pushed) == multiset(first + (before + pushed))
  {
    assert stack == stack[..|stack| - 1] + [stack[|stack| - 1]];
    assert first + (before + pushed) == (first + before) + pushed;
  }

  /** A pass from the top entry `s` of the stack, recorded in the trace,
      keeps the trace invariant. */
  lemma TraceStep(words: set<string>, start: Position, maxDepth: int, stack: seq<State>,
                  chains: seq<seq<Move>>, deadEnds: seq<State>, passes: seq<PassRecord>,
                  children: seq<Move>, reported: seq<seq<Move>>, pushed: seq<State>)
    requires Searchable(start) && TraceInv(words, start, maxDepth, stack, chains, deadEnds, passes) && stack != []
    requires StateOk(words, start, maxDepth, stack[|stack| - 1])
    requires forall c :: c in children ==> LegalMove(words, stack[|stack| - 1].board, stack[|stack| - 1].hand, c)
    requires AllPlayable(stack[|stack| - 1], children)
    requires reported == PassReported(PassRecord(stack[|stack| - 1], children), maxDepth)
    requires pushed == ChildrenPushed(stack[|stack| - 1], children, maxDepth)
    ensures var s := stack[|stack| - 1];
      TraceInv(words, start, maxDepth, stack[..|stack| - 1] + pushed, chains + reported,
               deadEnds + (if children == [] then [s] else []), passes + [PassRecord(s, children)])
  {
    var s, rest := stack[|stack| - 1], stack[..|stack| - 1];
    var p := PassRecord(s, children);
    TracedSnoc(words, start, maxDepth, passes, p);
    TraceSnoc(passes, p, maxDepth);
    PoppedCount(Entries(passes), stack, pushed, InitialStack(start), AllPushed(passes, maxDepth));
    if chains == [] && rest + pushed == [] && children != [] {
      ChildrenEmit(s, children, maxDepth);
    }
  }

  /** When the stack is empty the popped entries are exactly, with
      multiplicity, the first entries and everything pushed. */
  lemma TraceDone(words: set<string>, start: Position, maxDepth: int,
                  chains: seq<seq<Move>>, deadEnds: seq<State>, passes: seq<PassRecord>)
    requires Searchable(start) && TraceInv(words, start, maxDepth, [], chains, deadEnds, passes)
    ensures Traced(words, start, maxDepth, passes) && chains == Emitted(passes, maxDepth) && deadEnds == DeadEnds(passes)
    ensures multiset(Entries(passes)) == multiset(InitialStack(start) + AllPushed(passes, maxDepth))
    ensures chains != []
  {
    var none: seq<State> := [];
    assert multiset(none) == multiset{};
  }

  /** The search's first entries: the start with an empty chain and, when
      bombs are given, the start blasted by a first bomb. */
  function InitialStack(start: Position): (stack: seq<State>)
    requires Searchable(start)
    ensures |stack| == if start.bombs > 0 then 2 else 1
    ensures stack[0] == State(start.board, start.hand, [], start.bombs, 1)
  {
    [State(start.board, start.hand, [], start.bombs, 1)] +
    (if start.bombs > 0 then [State(Bombed(start.board), start.hand, [BombMove], start.bombs - 1, 1)] else [])
  }

  /** The search starts with its invariant: the first entries are well
      placed and not closed, and nothing is reported yet. */
  lemma SearchInit(words: set<string>, start: Position, maxDepth: int)
    requires Searchable(start)
    ensures SearchInv(words, start, maxDepth, InitialStack(start), [], [])
  {
    var first := State(start.board, start.hand, [], start.bombs, 1);
    assert At(first) == start;
    if start.bombs > 0 {
      assert [] + [BombMove] == [BombMove];
      BlastedState(words, start, maxDepth, first, InitialStack(start)[1]);
    }
  }

  /** Every reported chain keeps within the hand and the bombs given. */
  lemma SearchBudget(words: set<string>, start: Position, maxDepth: int, chains: seq<seq<Move>>)
    requires Searchable(start) && forall w :: w in words ==> IsWord(w)
    requires forall c :: c in chains ==> Finished(words, start, maxDepth, c)
    ensures forall c :: c in chains ==> WordMoves(c) <= Total(start.hand) && BombMoves(c) <= Max(start.bombs, 0)
  {
    forall c | c in chains
      ensures WordMoves(c) <= Total(start.hand) && BombMoves(c) <= Max(start.bombs, 0)
    {
      ReplayBudget(words, start, c);
    }
  }

  /** Popping the top entry keeps the invariant for the rest of the stack,
      and the popped entry is well placed and not closed. */
  lemma SearchPop(words: set<string>, start: Position, maxDepth: int,
                  stack: seq<State>, chains: seq<seq<Move>>, deadEnds: seq<State>)
    requires Searchable(start) && stack != [] && SearchInv(words, start, maxDepth, stack, chains, deadEnds)
    ensures var s := stack[|stack| - 1];
      StateOk(words, start, maxDepth, s) && !Closing(s.chain, maxDepth) &&
      SearchInv(words, start, maxDepth, stack[..|stack| - 1], chains, deadEnds)
  {
    assert stack[|stack| - 1] in stack;
    assert forall t :: t in stack[..|stack| - 1] ==> t in stack;
  }

  /** A pass from the popped entry `s` keeps the invariant: what it
      reports is closed or is the chain of `s` when `s` has no valid move,
      and what it pushes is well placed and not closed. */
  lemma SearchStep(words: set<string>, start: Position, maxDepth: int, rest: seq<State>, s: State,
                   children: seq<Move>, reported: seq<seq<Move>>, pushed: seq<State>,
                   chains: seq<seq<Move>>, deadEnds: seq<State>)
    requires Searchable(start) && SearchInv(words, start, maxDepth, rest, chains, deadEnds)
    requires StateOk(words, start, maxDepth, s) && !Closing(s.chain, maxDepth)
    requires OutcomeSound(words, start, maxDepth, s, reported, pushed)
    requires forall c :: c in reported ==> Closing(c, maxDepth) || (children == [] && c == s.chain)
    requires forall t :: t in pushed ==> !Closing(t.chain, maxDepth)
    requires children == [] ==> s.chain in reported
    ensures SearchInv(words, start, maxDepth, rest + pushed, chains + reported,
                      deadEnds + (if children == [] then [s] else []))
  {
    var deadEnds' := deadEnds + (if children == [] then [s] else []);
    forall c | c in chains + reported
      ensures Closing(c, maxDepth) || exists t :: t in deadEnds' && t.chain == c
    {
      if c in chains && !Closing(c, maxDepth) {
        var t :| t in deadEnds && t.chain == c;
        assert t in deadEnds';
      } else if c in reported && !Closing(c, maxDepth) {
        assert s in deadEnds';
      }
    }
  }

  /** The proposals that pass validation, in order, each with the kill
      flag the validator reports for it. */
  ghost function Validated(words: set<string>, b: Board, moves: seq<Move>): (r: seq<Move>)
    requires WellFormed(b) && forall i :: 0 <= i < |moves| ==> MoveInGrid(b, moves[i])
    decreases |moves|
  {
    if moves == [] then []
    else
      var mv := moves[|moves| - 1];
      Validated(words, b, moves[..|moves| - 1]) +
      (if CrossOkBefore(words, b, mv, |mv.word|) then [mv.(kill := KillScanned(words, b, mv, |mv.word|))] else [])
  }

  /** A move is kept exactly when it is a proposal whose cross words are
      all acceptable, and it is kept with its kill flag (`KeptAs`); no more
      are kept than proposed. */
  lemma ValidatedExactly(words: set<string>, b: Board, moves: seq<Move>)
    requires WellFormed(b) && forall i :: 0 <= i < |moves| ==> MoveInGrid(b, moves[i])
    ensures |Validated(words, b, moves)| <= |moves|
    ensures forall c :: c in Validated(words, b, moves) <==> exists i :: KeptAs(words, b, moves, i, c)
  {
    ValidatedSound(words, b, moves);
    ValidatedComplete(words, b, moves);
  }

  /** The last proposal is kept, with its kill flag, after the moves kept
      from the others, or is dropped. */
  lemma ValidatedLast(words: set<string>, b: Board, moves: seq<Move>)
    requires WellFormed(b) && forall i :: 0 <= i < |moves| ==> MoveInGrid(b, moves[i])
    requires moves != []
    ensures var n := |moves| - 1;
      Validated(words, b, moves) == Validated(words, b, moves[..n]) +
        (if KeptAs(words, b, moves, n, moves[n].(kill := KillScanned(words, b, moves[n], |moves[n].word|)))
         then [moves[n].(kill := KillScanned(words, b, moves[n], |moves[n].word|))] else [])
  {
  }

  /** Every move kept is a proposal kept with its kill flag, and no more
      are kept than proposed. */
  lemma ValidatedSound(words: set<string>, b: Board, moves: seq<Move>)
    requires WellFormed(b) && forall i :: 0 <= i < |moves| ==> MoveInGrid(b, moves[i])
    ensures |Validated(words, b, moves)| <= |moves|
    ensures forall c :: c in Validated(words, b, moves) ==> exists i :: KeptAs(words, b, moves, i, c)
  {
    ValidatedLength(words, b, moves);
    forall c | c in Validated(words, b, moves)
      ensures exists i :: KeptAs(words, b, moves, i, c)
    {
      ValidatedFrom(words, b, moves, c);
    }
  }

  lemma {:induction false} ValidatedLength(words: set<string>, b: Board, moves: seq<Move>)
    requires WellFormed(b) && forall i :: 0 <= i < |moves| ==> MoveInGrid(b, moves[i])
    ensures |Validated(words, b, moves)| <= |moves|
    decreases |moves|
  {
    if moves != [] {
      ValidatedLength(words, b, moves[..|moves| - 1]);
    }
  }

  /** A move kept is some proposal kept with its kill flag. */
  lemma {:induction false} ValidatedFrom(words: set<string>, b: Board, moves: seq<Move>, c: Move)
    requires WellFormed(b) && forall i :: 0 <= i < |moves| ==> MoveInGrid(b, moves[i])
    requires c in Validated(words, b, moves)
    ensures exists i :: KeptAs(words, b, moves, i, c)
    decreases |moves|
  {
    ValidatedLast(words, b, moves);
    if c in Validated(words, b, moves[..|moves| - 1]) {
      ValidatedFrom(words, b, moves[..|moves| - 1], c);
      var i :| KeptAs(words, b, moves[..|moves| - 1], i, c);
      assert moves[i] == moves[..|moves| - 1][i];
      assert KeptAs(words, b, moves, i, c);
    } else {
      assert KeptAs(words, b, moves, |moves| - 1, c);
    }
  }

  /** Every proposal whose cross words are all acceptable is kept. */
  lemma ValidatedComplete(words: set<string>, b: Board, moves: seq<Move>)
    requires WellFormed(b) && forall i :: 0 <= i < |moves| ==> MoveInGrid(b, moves[i])
    ensures forall i, c :: KeptAs(words, b, moves, i, c) ==> c in Validated(words, b, moves)
  {
    forall i, c | KeptAs(words, b, moves, i, c)
      ensures c in Validated(words, b, moves)
    {
      ValidatedKeeps(words, b, moves, i);
    }
  }

  /** Proposal i, when its cross words are all acceptable, is kept with its
      kill flag. */
  lemma {:induction false} ValidatedKeeps(words: set<string>, b: Board, moves: seq<Move>, i: int)
    requires WellFormed(b) && forall i :: 0 <= i < |moves| ==> MoveInGrid(b, moves[i])
    requires 0 <= i < |moves| && CrossOkBefore(words, b, moves[i], |moves[i].word|)
    ensures moves[i].(kill := KillScanned(words, b, moves[i], |moves[i].word|)) in Validated(words, b, moves)
    decreases |moves|
  {
    ValidatedLast(words, b, moves);
    if i < |moves| - 1 {
      assert moves[..|moves| - 1][i] == moves[i];
      ValidatedKeeps(words, b, moves[..|moves| - 1], i);
    }
  }

  /** Proposal i is kept as c: its cross words are all acceptable and c is
      it with the validator's kill flag. */
  ghost predicate KeptAs(words: set<string>, b: Board, moves: seq<Move>, i: int, c: Move)
    requires WellFormed(b) && forall i :: 0 <= i < |moves| ==> MoveInGrid(b, moves[i])
  {
    0 <= i < |moves| && CrossOkBefore(words, b, moves[i], |moves[i].word|) &&
    c == moves[i].(kill := KillScanned(words, b, moves[i], |moves[i].word|))
  }

  /** The moves kept from candidates are the legal moves of the position. */
  lemma ValidatedLegal(words: set<string>, b: Board, h: seq<nat>, moves: seq<Move>)
    requires WellFormed(b) && Anchored(b)
    requires forall i :: 0 <= i < |moves| ==> MoveInGrid(b, moves[i]) && Candidate(words, b, h, moves[i]) && !moves[i].kill
    ensures forall c :: c in Validated(words, b, moves) ==> LegalMove(words, b, h, c)
  {
    ValidatedExactly(words, b, moves);
    forall c | c in Validated(words, b, moves)
      ensures LegalMove(words, b, h, c)
    {
      var i :| KeptAs(words, b, moves, i, c);
      ValidatedCandidate(words, b, h, moves[i]);
    }
  }

  /** The hand of a string of tiles as `GetMoves(board, string hand, ...)`
      counts it: per letter the number of its tiles, held in a byte, so a
      count wraps past 255. */
  function HandOf(hand: string): (h: seq<nat>)
    requires IsWord(hand)
    ensures |h| == Alphabet && forall c :: 0 <= c < Alphabet ==> h[c] == multiset(hand)[Chr(c)] % 256
  {
    seq(Alphabet, c requires 0 <= c < Alphabet => multiset(hand)[Chr(c)] % 256)
  }

  /** With fewer than 256 tiles of each letter the hand holds exactly the
      tiles of the string. */
  lemma {:induction false} HandOfTotal(hand: string)
    requires IsWord(hand)
    requires forall c :: 0 <= c < Alphabet ==> multiset(hand)[Chr(c)] < 256
    ensures Total(HandOf(hand)) == |hand|
    decreases |hand|
  {
    if hand == [] {
      TotalZero(HandOf(hand));
    } else {
      HandOfLast(hand);
      HandOfTotal(hand[..|hand| - 1]);
    }
  }

  /** Dropping the last tile of a string short of a wrap leaves a string
      short of a wrap whose hand holds one tile less. */
  lemma HandOfLast(hand: string)
    requires IsWord(hand) && hand != []
    requires forall c :: 0 <= c < Alphabet ==> multiset(hand)[Chr(c)] < 256
    ensures IsWord(hand[..|hand| - 1])
    ensures forall c :: 0 <= c < Alphabet ==> multiset(hand[..|hand| - 1])[Chr(c)] < 256
    ensures Total(HandOf(hand)) == Total(HandOf(hand[..|hand| - 1])) + 1
  {
    var n := |hand| - 1;
    var front, last := hand[..n], hand[n];
    assert hand == front + [last];
    assert multiset(hand) == multiset(front) + multiset{last};
    assert Chr(Index(last)) == last;
    assert multiset(hand)[Chr(Index(last))] < 256;
    HandOfAdd(front, last);
    var h := HandOf(front);
    assert forall c :: 0 <= c < Alphabet ==> multiset(front)[Chr(c)] <= multiset(hand)[Chr(c)];
    TotalIncrement(h, Index(last));
  }

  /** One more tile of a letter, short of a wrap, adds one to its slot. */
  lemma HandOfAdd(front: string, last: char)
    requires IsWord(front) && IsLower(last)
    requires multiset(front + [last])[last] < 256
    ensures IsWord(front + [last])
    ensures var h := HandOf(front); HandOf(front + [last]) == h[Index(last) := h[Index(last)] + 1]
  {
    var hand := front + [last];
    assert multiset(hand) == multiset(front) + multiset{last};
    var h, i := HandOf(front), Index(last);
    forall c | 0 <= c < Alphabet
      ensures HandOf(hand)[c] == h[i := h[i] + 1][c]
    {
      if c != i {
        assert Chr(c) != last;
      }
    }
  }

  /** The number of tiles of each letter in a hand string, without the
      byte wrap. */
  function LetterCounts(hand: string): (h: seq<nat>)
    ensures |h| == Alphabet
  {
    seq(Alphabet, c requires 0 <= c < Alphabet => multiset(hand)[Chr(c)])
  }

  /** One more tile of a letter adds one to its count. */
  lemma LetterCountsAdd(front: string, last: char)
    requires IsWord(front) && IsLower(last)
    ensures IsWord(front + [last])
    ensures var h := LetterCounts(front); LetterCounts(front + [last]) == h[Index(last) := h[Index(last)] + 1]
  {
    var hand := front + [last];
    assert multiset(hand) == multiset(front) + multiset{last};
    var h, i := LetterCounts(front), Index(last);
    assert Chr(i) == last;
    forall c | 0 <= c < Alphabet
      ensures LetterCounts(hand)[c] == h[i := h[i] + 1][c]
    {
      if c != i {
        assert Chr(c) != last;
      }
    }
  }

  /** The letter counts of a hand string add up to its length. */
  lemma {:induction false} LetterCountsTotal(hand: string)
    requires IsWord(hand)
    ensures Total(LetterCounts(hand)) == |hand|
    decreases |hand|
  {
    if hand != [] {
      var n := |hand| - 1;
      var front, last := hand[..n], hand[n];
      assert hand == front + [last];
      assert IsWord(front) && IsLower(last);
      LetterCountsTotal(front);
      LetterCountsAdd(front, last);
      TotalIncrement(LetterCounts(front), Index(last));
    } else {
      TotalZero(LetterCounts(hand));
    }
  }

  /** Whatever the counts, the byte slots of a hand string hold no more
      tiles than the string has: a wrapped slot only loses tiles. */
  lemma HandOfBound(hand: string)
    requires IsWord(hand)
    ensures Total(HandOf(hand)) <= |hand|
  {
    LetterCountsTotal(hand);
    TotalMonotone(LetterCounts(hand), HandOf(hand));
  }

  /** The loop of `GetMoves(board, string hand, ...)`: one byte slot per
      letter, incremented for each tile of the string. */
  method CountLetters(hand: string) returns (counts: seq<nat>)
    requires IsWord(hand)
    ensures counts == HandOf(hand)
  {
    var bytes := new nat[Alphabet](c => 0);
    var i := 0;
    while i < |hand|
      invariant 0 <= i <= |hand|
      invariant forall c :: 0 <= c < Alphabet ==> bytes[c] == multiset(hand[..i])[Chr(c)] % 256
    {
      var c := Index(hand[i]);
      CountStep(hand, i);
      ByteIncrement(multiset(hand[..i])[hand[i]]);
      assert Chr(c) == hand[i];
      bytes[c] := (bytes[c] + 1) % 256;
      i := i + 1;
    }
    assert hand[..i] == hand;
    counts := bytes[..];
  }

  /** Adding one to a byte wraps like adding one to the full count. */
  lemma ByteIncrement(x: nat)
    ensures (x % 256 + 1) % 256 == (x + 1) % 256
  {
  }

  /** Reading tile i adds one to the count of its letter only. */
  lemma CountStep(hand: string, i: int)
    requires IsWord(hand) && 0 <= i < |hand|
    ensures forall c :: 0 <= c < Alphabet ==>
      multiset(hand[..i + 1])[Chr(c)] == multiset(hand[..i])[Chr(c)] + (if c == Index(hand[i]) then 1 else 0)
  {
    assert hand[..i + 1] == hand[..i] + [hand[i]];
    assert Chr(Index(hand[i])) == hand[i];
    forall c | 0 <= c < Alphabet
      ensures multiset(hand[..i + 1])[Chr(c)] == multiset(hand[..i])[Chr(c)] + (if c == Index(hand[i]) then 1 else 0)
    {
      if c != Index(hand[i]) {
        assert Index(Chr(c)) == c;
      }
    }
  }

  /** The moves of the matches of a line: `matches.Select(match => new
      Move { ... })`, along row `line` when horizontal, down column `line`
      otherwise. */
  function ToMoves(ms: seq<WordMatch>, horizontal: bool, line: int): (r: seq<Move>)
    ensures |r| == |ms|
    ensures forall i :: 0 <= i < |ms| ==>
      r[i].horizontal == horizontal && (if horizontal then r[i].y else r[i].x) == line &&
      !r[i].bomb && !r[i].kill && r[i].length == |r[i].word| && r[i].handAfter.Some? &&
      WordMatch(r[i].word, if horizontal then r[i].x else r[i].y, r[i].handAfter.value) == ms[i]
  {
    seq(|ms|, i requires 0 <= i < |ms| =>
      Move(if horizontal then ms[i].start else line, if horizontal then line else ms[i].start,
           |ms[i].word|, horizontal, false, false, Some(ms[i].remainingHand), ms[i].word))
  }

  /** `Array.Copy` of row y of the tiles into the start of `buffer`. */
  method CopyRow(b: Board, y: int, buffer: array<char>)
    requires WellFormed(b) && 0 <= y < b.height && buffer.Length >= b.width
    modifies buffer
    ensures buffer[..b.width] == Row(b, y)
  {
    var row := Row(b, y);
    var j := 0;
    while j < b.width
      invariant 0 <= j <= b.width
      invariant forall k :: 0 <= k < j ==> buffer[k] == row[k]
    {
      buffer[j] := row[j];
      j := j + 1;
    }
  }

  /** The copy of column x of the tiles into the start of `buffer`. */
  method CopyColumn(b: Board, x: int, buffer: array<char>)
    requires WellFormed(b) && 0 <= x < b.width && buffer.Length >= b.height
    modifies buffer
    ensures buffer[..b.height] == Column(b, x)
  {
    var column := Column(b, x);
    var j := 0;
    while j < b.height
      invariant 0 <= j <= b.height
      invariant forall k :: 0 <= k < j ==> buffer[k] == column[k]
    {
      buffer[j] := column[j];
      j := j + 1;
    }
  }

  /** The matches of the current word's own line, or of a line across one
      of its cells, are candidates. */
  lemma LineCandidates(words: set<string>, b: Board, hand: seq<nat>, ms: seq<Move>, horizontal: bool, line: int)
    requires WellFormed(b) && Anchored(b)
    requires horizontal == b.pos.horizontal ==> line == (if horizontal then b.pos.y else b.pos.x)
    requires horizontal != b.pos.horizontal ==>
      (if horizontal then b.pos.y else b.pos.x) <= line < (if horizontal then b.pos.y else b.pos.x) + b.pos.length
    requires forall i :: 0 <= i < |ms| ==>
      MatchedOn(words, b, hand, ms[i]) && ms[i].horizontal == horizontal && !ms[i].kill &&
      (if horizontal then ms[i].y else ms[i].x) == line
    ensures forall i :: 0 <= i < |ms| ==> MoveInGrid(b, ms[i]) && Candidate(words, b, hand, ms[i]) && !ms[i].kill
  {
  }

  /** Appending candidates to candidates gives candidates. */
  lemma AppendCandidates(words: set<string>, b: Board, hand: seq<nat>, ms: seq<Move>, more: seq<Move>)
    requires WellFormed(b) && Anchored(b)
    requires forall i :: 0 <= i < |ms| ==> MoveInGrid(b, ms[i]) && Candidate(words, b, hand, ms[i]) && !ms[i].kill
    requires forall i :: 0 <= i < |more| ==> MoveInGrid(b, more[i]) && Candidate(words, b, hand, more[i]) && !more[i].kill
    ensures forall i :: 0 <= i < |ms + more| ==>
      MoveInGrid(b, (ms + more)[i]) && Candidate(words, b, hand, (ms + more)[i]) && !(ms + more)[i].kill
  {
    forall i | 0 <= i < |ms + more|
      ensures MoveInGrid(b, (ms + more)[i]) && Candidate(words, b, hand, (ms + more)[i]) && !(ms + more)[i].kill
    {
      if i < |ms| {
        assert (ms + more)[i] == ms[i];
      } else {
        assert (ms + more)[i] == more[i - |ms|];
      }
    }
  }

  class Solver {
    var Words: set<string>
    var ContainsIndex: map<string, Mask>

    /** The dictionary holds lower-case words and the index is the one built
        from them. */
    ghost predicate Valid()
      reads this
    {
      AllWords(Words) && ContainsIndex == IndexOver(Words)
    }

    /** `new Solver(wordList)`. */
    constructor (wordList: seq<string>)
      requires forall k :: 0 <= k < |wordList| ==> IsWord(wordList[k])
      ensures Valid() && Words == ListWords(wordList)
    {
      Words := {};
      ContainsIndex := map[];
      new;
      SetDictionary(wordList);
    }

    /** `SetDictionary`: the word set of the list, and for every substring of
        every word the letters of all words holding it. */
    method SetDictionary(wordList: seq<string>)
      requires forall k :: 0 <= k < |wordList| ==> IsWord(wordList[k])
      modifies this
      ensures Words == ListWords(wordList)
      ensures Valid()
    {
      Words := ListWords(wordList);
      ContainsIndex := map[];
      assert AllWords(Words);
      assert ContainsIndex == IndexOver({});
      var rest := Words;
      while rest != {}
        invariant Words == ListWords(wordList) && AllWords(Words) && rest <= Words
        invariant ContainsIndex == IndexOver(Words - rest)
        decreases |rest|
      {
        var word :| word in rest;
        assert AllWords(Words - rest) && IsWord(word);
        IndexWord(word);
        AddWordIndex(Words - rest, word);
        assert Words - (rest - {word}) == (Words - rest) + {word};
        rest := rest - {word};
      }
      assert Words - rest == Words;
    }

    /** The body of the loop over the words of `SetDictionary`: the letters
        of `word` are added under each of its substrings, shortest first. */
    method IndexWord(word: string)
      requires IsWord(word)
      modifies this
      ensures Words == old(Words)
      ensures ContainsIndex == AddWord(old(ContainsIndex), Substrings(word), LetterMask(word))
    {
      ghost var before := ContainsIndex;
      ghost var letters := LetterMask(word);
      AddWordEmpty(before, letters);
      var i := 1;
      while i <= |word|
        invariant Words == old(Words)
        invariant 1 <= i <= |word| + 1
        invariant ContainsIndex == AddWord(before, SubstringsBefore(word, i, 0), letters)
      {
        IndexLength(word, i, before);
        i := i + 1;
      }
      SubstringsBeforeAll(word);
    }

    /** The loop over the starts j of the substrings of length i of `word`. */
    method IndexLength(word: string, i: int, ghost before: map<string, Mask>)
      requires IsWord(word) && 1 <= i <= |word|
      requires ContainsIndex == AddWord(before, SubstringsBefore(word, i, 0), LetterMask(word))
      modifies this
      ensures Words == old(Words)
      ensures ContainsIndex == AddWord(before, SubstringsBefore(word, i + 1, 0), LetterMask(word))
    {
      var j := 0;
      while j + i <= |word|
        invariant Words == old(Words)
        invariant 0 <= j <= |word| - i + 1
        invariant ContainsIndex == AddWord(before, SubstringsBefore(word, i, j), LetterMask(word))
      {
        AddSubstring(before, word, i, j);
        AddLetters(Sub(word, j, i), word);
        j := j + 1;
      }
      SubstringsBeforeStart(word, i);
    }

    /** The innermost loop of `SetDictionary`: the key is created with an
        empty mask when missing, then gets the bit of every letter of the
        word. */
    method AddLetters(key: string, word: string)
      requires IsWord(word)
      modifies this
      ensures Words == old(Words)
      ensures ContainsIndex == old(ContainsIndex)[key := (if key in old(ContainsIndex) then old(ContainsIndex)[key] else {}) + LetterMask(word)]
    {
      if key !in ContainsIndex {
        ContainsIndex := ContainsIndex[key := {}];
      }
      var charIndex := ContainsIndex[key];
      var k := 0;
      while k < |word|
        invariant 0 <= k <= |word|
        invariant charIndex == ContainsIndex[key] + LetterMask(word[..k])
      {
        assert word[..k + 1] == word[..k] + [word[k]];
        charIndex := charIndex + {Index(word[k])};
        k := k + 1;
      }
      assert word[..k] == word;
      ContainsIndex := ContainsIndex[key := charIndex];
    }

    // ------------------------------------------------------------- search

    /** `GetMoves(board, string hand, ...)`: the search on the counts of
        the hand's letters, kept in byte slots. A reported chain has at most
        as many word moves as the string has letters. */
    method GetMovesFromLetters(board: Board, hand: string, bombCount: int, maxDepth: int)
      returns (chains: seq<seq<Move>>, ghost deadEnds: seq<State>, ghost passes: seq<PassRecord>)
      requires AllWords(Words)
      requires WellFormed(board) && Anchored(board) && IsWord(hand)
      ensures forall c :: c in chains ==> Finished(Words, Position(board, HandOf(hand), bombCount), maxDepth, c)
      ensures forall c :: c in chains ==> WordMoves(c) <= |hand|
      ensures forall c :: c in chains ==> Closing(c, maxDepth) || exists t :: t in deadEnds && t.chain == c
      ensures Traced(Words, Position(board, HandOf(hand), bombCount), maxDepth, passes)
      ensures chains == Emitted(passes, maxDepth) && deadEnds == DeadEnds(passes) && chains != []
      ensures multiset(Entries(passes)) == multiset(InitialStack(Position(board, HandOf(hand), bombCount)) + AllPushed(passes, maxDepth))
    {
      var counts := CountLetters(hand);
      chains, deadEnds, passes := GetMoves(board, counts, bombCount, maxDepth);
      HandOfBound(hand);
    }

    /** `GetMoves`: a depth-first search from `board` with `hand` and
        `bombCount` bombs. A pass pops a position, proposes the matches of
        the current word's line and of each line across it, keeps those
        whose cross words are acceptable, and plays each of them: the chain
        ends there when the hand is used up or the depth limit is reached,
        and otherwise the new position is pushed, together with its bombed
        version while bombs are left. A position with no valid move reports
        its own chain. A bomb may also start the search. Every reported
        chain can be played from the start, keeps to the depth limit, and
        uses no more tiles and bombs than given; it is closed by its last
        word move, or it is the chain of one of `deadEnds`, the popped
        entries whose pass found no valid move. `passes` records every
        pass in order, with its popped entry and its valid moves: the
        chains are exactly what those passes report, every entry pushed is
        popped exactly once, and something is always reported. */
    method GetMoves(board: Board, hand: seq<nat>, bombCount: int, maxDepth: int)
      returns (chains: seq<seq<Move>>, ghost deadEnds: seq<State>, ghost passes: seq<PassRecord>)
      requires AllWords(Words)
      requires WellFormed(board) && Anchored(board) && |hand| == Alphabet
      ensures forall c :: c in chains ==> Finished(Words, Position(board, hand, bombCount), maxDepth, c)
      ensures forall c :: c in chains ==> WordMoves(c) <= Total(hand) && BombMoves(c) <= Max(bombCount, 0)
      ensures forall c :: c in chains ==> Closing(c, maxDepth) || exists t :: t in deadEnds && t.chain == c
      ensures forall t :: t in deadEnds ==>
        t.chain in chains && !Closing(t.chain, maxDepth) && StateOk(Words, Position(board, hand, bombCount), maxDepth, t)
      ensures Traced(Words, Position(board, hand, bombCount), maxDepth, passes)
      ensures chains == Emitted(passes, maxDepth) && deadEnds == DeadEnds(passes) && chains != []
      ensures multiset(Entries(passes)) == multiset(InitialStack(Position(board, hand, bombCount)) + AllPushed(passes, maxDepth))
    {
      ghost var start := Position(board, hand, bombCount);
      var stack := [State(board, hand, [], bombCount, 1)];
      if bombCount > 0 {
        var bombed := Bomb(board);
        var blasted := State(bombed, hand, [BombMove], bombCount - 1, 1);
        stack := stack + [blasted];
      }
      var buffer := new char[Max(board.width, board.height)];
      chains, deadEnds, passes := [], [], [];
      assert stack == InitialStack(start);
      SearchInit(Words, start, maxDepth);
      TraceInit(Words, start, maxDepth);
      ghost var k := Branching(board.width, board.height);
      while stack != []
        invariant SearchInv(Words, start, maxDepth, stack, chains, deadEnds)
        invariant TraceInv(Words, start, maxDepth, stack, chains, deadEnds, passes)
        decreases Weight(stack, Size, k)
      {
        var s := stack[|stack| - 1];
        ghost var rest, popped := stack[..|stack| - 1], stack;
        SearchPop(Words, start, maxDepth, stack, chains, deadEnds);
        stack := stack[..|stack| - 1];
        ghost var children;
        var reported, pushed;
        reported, pushed, children := Pass(start, s, maxDepth, buffer);
        SearchStep(Words, start, maxDepth, rest, s, children, reported, pushed, chains, deadEnds);
        TraceStep(Words, start, maxDepth, popped, chains, deadEnds, passes, children, reported, pushed);
        passes := passes + [PassRecord(s, children)];
        if children == [] {
          deadEnds := deadEnds + [s];
        }
        chains := chains + reported;
        PushLighter(stack, s, pushed, k);
        stack := stack + pushed;
      }
      SearchBudget(Words, start, maxDepth, chains);
      TraceDone(Words, start, maxDepth, chains, deadEnds, passes);
    }

    /** One pass of the search from the popped entry `s`: the valid moves
        `children`, the chains it reports and the entries it pushes, each
        smaller than `s`. */
    method Pass(ghost start: Position, s: State, maxDepth: int, buffer: array<char>)
      returns (reported: seq<seq<Move>>, pushed: seq<State>, ghost children: seq<Move>)
      requires AllWords(Words) && Searchable(start) && StateOk(Words, start, maxDepth, s)
      requires buffer.Length >= Max(s.board.width, s.board.height)
      modifies buffer
      ensures forall c :: c in children ==> LegalMove(Words, s.board, s.hand, c)
      ensures AllPlayable(s, children)
      ensures reported == ChildrenReported(s, children, maxDepth) + (if children == [] then [s.chain] else [])
      ensures pushed == ChildrenPushed(s, children, maxDepth)
      ensures forall c :: c in reported ==> Closing(c, maxDepth) || (children == [] && c == s.chain)
      ensures forall t :: t in pushed ==> !Closing(t.chain, maxDepth)
      ensures |pushed| < Branching(s.board.width, s.board.height)
      ensures OutcomeSound(Words, start, maxDepth, s, reported, pushed)
    {
      var moves;
      ghost var proposals;
      moves, proposals := ChildMoves(s.board, s.hand, buffer);
      children := moves;
      reported, pushed := PlayAll(start, s, moves, maxDepth);
    }

    /** The second half of a pass: the valid moves played in order, or the
        entry's own chain reported when there are none. */
    method PlayAll(ghost start: Position, s: State, children: seq<Move>, maxDepth: int)
      returns (reported: seq<seq<Move>>, pushed: seq<State>)
      requires AllWords(Words) && Searchable(start) && StateOk(Words, start, maxDepth, s)
      requires forall c :: c in children ==> LegalMove(Words, s.board, s.hand, c)
      requires |children| <= (1 + s.board.pos.length) * LineLimit(s.board.width, s.board.height)
      ensures AllPlayable(s, children)
      ensures reported == ChildrenReported(s, children, maxDepth) + (if children == [] then [s.chain] else [])
      ensures pushed == ChildrenPushed(s, children, maxDepth)
      ensures forall c :: c in reported ==> Closing(c, maxDepth) || (children == [] && c == s.chain)
      ensures forall t :: t in pushed ==> !Closing(t.chain, maxDepth)
      ensures |pushed| < Branching(s.board.width, s.board.height)
      ensures OutcomeSound(Words, start, maxDepth, s, reported, pushed)
    {
      reported, pushed := PlayChildren(start, s, children, maxDepth);
      BranchBound(s.board, |pushed|);
      if children == [] {
        reported := reported + [s.chain];
      }
      PassOutcome(Words, start, maxDepth, s, children, reported, pushed);
    }

    /** The valid moves of one pass: the proposals that pass validation,
        with their kill flags. */
    method ChildMoves(b: Board, hand: seq<nat>, buffer: array<char>) returns (children: seq<Move>, ghost proposals: seq<Move>)
      requires AllWords(Words) && WellFormed(b) && Anchored(b) && |hand| == Alphabet
      requires buffer.Length >= Max(b.width, b.height)
      modifies buffer
      ensures forall i :: 0 <= i < |proposals| ==> MoveInGrid(b, proposals[i]) && Candidate(Words, b, hand, proposals[i])
      ensures children == Validated(Words, b, proposals)
      ensures forall c :: c in children ==> LegalMove(Words, b, hand, c)
      ensures |children| <= (1 + b.pos.length) * LineLimit(b.width, b.height)
    {
      var moves := CandidateMoves(b, hand, buffer);
      proposals := moves;
      children := ValidMoves(b, moves, buffer);
      ValidatedLegal(Words, b, hand, moves);
      ValidatedExactly(Words, b, moves);
    }

    /** The proposals of one pass: the matches of the current word's own
        line, then those of each line across it, first cell first. */
    method CandidateMoves(b: Board, hand: seq<nat>, buffer: array<char>) returns (moves: seq<Move>)
      requires AllWords(Words) && WellFormed(b) && Anchored(b) && |hand| == Alphabet
      requires buffer.Length >= Max(b.width, b.height)
      modifies buffer
      ensures forall i :: 0 <= i < |moves| ==> MoveInGrid(b, moves[i]) && Candidate(Words, b, hand, moves[i])
      ensures forall i :: 0 <= i < |moves| ==> !moves[i].kill
      ensures |moves| <= (1 + b.pos.length) * LineLimit(b.width, b.height)
    {
      var p := b.pos;
      moves := MatchLine(b, hand, p.horizontal, if p.horizontal then p.y else p.x, buffer);
      LineCandidates(Words, b, hand, moves, p.horizontal, if p.horizontal then p.y else p.x);
      var i := 0;
      while i < p.length
        invariant 0 <= i <= p.length
        invariant forall j :: 0 <= j < |moves| ==> MoveInGrid(b, moves[j]) && Candidate(Words, b, hand, moves[j]) && !moves[j].kill
        invariant |moves| <= (1 + i) * LineLimit(b.width, b.height)
      {
        var across := MatchLine(b, hand, !p.horizontal, if p.horizontal then p.x + i else p.y + i, buffer);
        LineCandidates(Words, b, hand, across, !p.horizontal, if p.horizontal then p.x + i else p.y + i);
        StepBound(|moves|, |across|, 1 + i, LineLimit(b.width, b.height));
        AppendCandidates(Words, b, hand, moves, across);
        moves := moves + across;
        i := i + 1;
      }
    }

    /** One line of a pass: row `line` (horizontal) or column `line` is
        copied into `buffer` and matched around the scan's anchor cell, and
        each match becomes a move along that line. */
    method MatchLine(b: Board, hand: seq<nat>, horizontal: bool, line: int, buffer: array<char>) returns (moves: seq<Move>)
      requires AllWords(Words) && WellFormed(b) && Anchored(b) && |hand| == Alphabet
      requires if horizontal then 0 <= line < b.height else 0 <= line < b.width
      requires buffer.Length >= Max(b.width, b.height)
      modifies buffer
      ensures forall i :: 0 <= i < |moves| ==>
        MatchedOn(Words, b, hand, moves[i]) && moves[i].horizontal == horizontal && !moves[i].kill &&
        (if horizontal then moves[i].y else moves[i].x) == line
      ensures |moves| <= LineLimit(b.width, b.height)
    {
      var matches;
      if horizontal {
        CopyRow(b, line, buffer);
        matches := MatchPattern(buffer, b.width, hand, b.pos.x);
        PowMonotone(53, b.width, Extent(b.width, b.height));
      } else {
        CopyColumn(b, line, buffer);
        matches := MatchPattern(buffer, b.height, hand, b.pos.y);
        PowMonotone(53, b.height, Extent(b.width, b.height));
      }
      moves := ToMoves(matches, horizontal, line);
      forall i | 0 <= i < |moves|
        ensures MatchedOn(Words, b, hand, moves[i]) && moves[i].horizontal == horizontal && !moves[i].kill &&
          (if horizontal then moves[i].y else moves[i].x) == line
      {
        assert matches[i] in matches;
      }
    }

    /** The validation of a pass: `PerpendicularMovesValid` on each
        proposal in turn, keeping the valid ones with their kill flag. */
    method ValidMoves(b: Board, moves: seq<Move>, buffer: array<char>) returns (children: seq<Move>)
      requires WellFormed(b) && forall i :: 0 <= i < |moves| ==> MoveInGrid(b, moves[i])
      requires buffer.Length >= Max(b.width, b.height)
      modifies buffer
      ensures children == Validated(Words, b, moves)
    {
      children := [];
      var i := 0;
      while i < |moves|
        invariant 0 <= i <= |moves|
        invariant children == Validated(Words, b, moves[..i])
      {
        var mv := moves[i];
        assert moves[..i + 1][..i] == moves[..i];
        var isValid, isKill := PerpendicularMovesValid(b, mv, buffer);
        if isValid {
          children := children + [mv.(kill := isKill)];
        }
        i := i + 1;
      }
      assert moves[..i] == moves;
    }

    /** The children of a pass played out in order. */
    method PlayChildren(ghost start: Position, s: State, children: seq<Move>, maxDepth: int)
      returns (finished: seq<seq<Move>>, pushed: seq<State>)
      requires AllWords(Words) && Searchable(start) && StateOk(Words, start, maxDepth, s)
      requires forall c :: c in children ==> LegalMove(Words, s.board, s.hand, c)
      ensures AllPlayable(s, children) && forall i :: 0 <= i < |children| ==> !children[i].bomb
      ensures finished == ChildrenReported(s, children, maxDepth) && pushed == ChildrenPushed(s, children, maxDepth)
      ensures |pushed| <= 2 * |children|
      ensures OutcomeSound(Words, start, maxDepth, s, finished, pushed)
    {
      finished, pushed := [], [];
      var i := 0;
      while i < |children|
        invariant PlayedUpTo(Words, start, maxDepth, s, children, i, finished, pushed)
      {
        finished, pushed := PlayNext(start, s, children, i, maxDepth, finished, pushed);
        i := i + 1;
      }
      PlayedAll(Words, start, maxDepth, s, children, finished, pushed);
    }

    /** Child i played after the first i: its outcome is appended. */
    method PlayNext(ghost start: Position, s: State, children: seq<Move>, i: int, maxDepth: int,
                    finished: seq<seq<Move>>, pushed: seq<State>)
      returns (finished': seq<seq<Move>>, pushed': seq<State>)
      requires AllWords(Words) && Searchable(start) && StateOk(Words, start, maxDepth, s)
      requires forall c :: c in children ==> LegalMove(Words, s.board, s.hand, c)
      requires PlayedUpTo(Words, start, maxDepth, s, children, i, finished, pushed) && i < |children|
      ensures PlayedUpTo(Words, start, maxDepth, s, children, i + 1, finished', pushed')
    {
      assert children[i] in children;
      var done, next := PlayChild(start, s, children[i], maxDepth);
      PlayedNext(Words, start, maxDepth, s, children, i, finished, pushed, done, next);
      finished', pushed' := finished + done, pushed + next;
    }

    /** One child of a pass: the move is played on a copy of the board; its
        chain is reported when the hand is used up or the depth limit is
        reached, and otherwise its position is pushed, then its bombed
        position while bombs are left. */
    method PlayChild(ghost start: Position, s: State, child: Move, maxDepth: int)
      returns (finished: seq<seq<Move>>, pushed: seq<State>)
      requires AllWords(Words) && Searchable(start) && StateOk(Words, start, maxDepth, s)
      requires LegalMove(Words, s.board, s.hand, child)
      ensures Playable(s, child) && !child.bomb
      ensures finished != [] <==> HandAfterMoveLength(child) == 0 || s.depth == maxDepth
      ensures finished == ChildReported(s, child, maxDepth) && pushed == ChildPushed(s, child, maxDepth)
      ensures |pushed| <= 2 && OutcomeSound(Words, start, maxDepth, s, finished, pushed)
    {
      ChildSound(Words, start, maxDepth, s, child);
      finished, pushed := EmitChild(s, child, maxDepth);
    }

    /** The board work of one child: the move played on a copy of the
        board, and the copy bombed when the child's position is pushed
        with bombs left. */
    method EmitChild(s: State, child: Move, maxDepth: int) returns (finished: seq<seq<Move>>, pushed: seq<State>)
      requires Playable(s, child) && !child.bomb
      ensures finished == ChildReported(s, child, maxDepth) && pushed == ChildPushed(s, child, maxDepth)
      ensures finished != [] <==> HandAfterMoveLength(child) == 0 || s.depth == maxDepth
    {
      var next := NextBoard(s.board, child);
      var played := State(next, child.handAfter.value, s.chain + [child], s.bombs, s.depth + 1);
      if HandAfterMoveLength(child) == 0 || s.depth == maxDepth {
        finished, pushed := [played.chain], [];
      } else if s.bombs > 0 {
        var bombed := Bomb(next);
        var blasted := State(bombed, played.hand, played.chain + [BombMove], s.bombs - 1, played.depth);
        finished, pushed := [], [played, blasted];
      } else {
        finished, pushed := [], [played];
      }
    }

    // ------------------------------------------------------------ matcher

    /** `MatchPattern`: the words that can be laid along `pattern[..length]`
        across the anchor cell `playerStart` by filling blank cells with
        tiles of `hand`, nearest the anchor first. The gaps are those of the
        first `length` cells: the written scan over the whole buffer can
        pick up stale cells (see `StaleGapOutsideCopy`). The caller's arrays
        are left unchanged. */
    method MatchPattern(pattern: array<char>, length: int, hand: seq<nat>, playerStart: int)
      returns (matches: seq<WordMatch>)
      requires AllWords(Words)
      requires 0 <= playerStart < length <= pattern.Length && |hand| == Alphabet
      ensures forall m :: m in matches ==> MatchOk(Words, pattern[..length], playerStart, hand, m)
      ensures |matches| <= 52 * Pow(53, length)
    {
      ghost var line := pattern[..length];
      var found := GapScan(pattern, length, playerStart);
      var gaps := ByDistance(found);
      GapOrder(line, playerStart, gaps);
      var patternCopy := pattern[..length];
      var handBitmask := HandBitmask(hand);

      InitialAttempt(line, playerStart, hand, gaps);
      var attempts := [Attempt(patternCopy, hand, handBitmask, gaps)];
      matches := [];
      while attempts != []
        invariant forall a :: a in attempts ==> AttemptOk(line, playerStart, hand, a)
        invariant forall m :: m in matches ==> MatchOk(Words, line, playerStart, hand, m)
        invariant |matches| + 52 * Weight(attempts, Pending, 53) <= 52 * Pow(53, |gaps|)
        decreases Weight(attempts, Pending, 53)
      {
        var current := attempts[|attempts| - 1];
        attempts := attempts[..|attempts| - 1];
        var newMatches, children := ExpandAttempt(line, playerStart, hand, current);
        WeightAppend(attempts, children, Pending, 53);
        matches := matches + newMatches;
        attempts := attempts + children;
      }
      PowMonotone(53, |gaps|, length);
    }

    /** The gap scan of `MatchPattern` over the first `length` cells: the
        offsets from `playerStart` of the blank cells, left to right. */
    method GapScan(pattern: array<char>, length: int, playerStart: int) returns (gaps: seq<int>)
      requires 0 <= length <= pattern.Length
      ensures gaps == GapOffsets(pattern[..length], playerStart)
    {
      gaps := [];
      var i := 0;
      while i < length
        invariant 0 <= i <= length
        invariant gaps == GapOffsets(pattern[..i], playerStart)
      {
        assert pattern[..i + 1][..i] == pattern[..i];
        if pattern[i] == Blank {
          gaps := gaps + [i - playerStart];
        }
        i := i + 1;
      }
    }

    /** `handBitmask`: bit c is set when the hand holds a tile of letter c. */
    method HandBitmask(hand: seq<nat>) returns (m: Mask)
      ensures m == HandMask(hand)
    {
      m := {};
      var c := 0;
      while c < |hand|
        invariant 0 <= c <= |hand|
        invariant forall c' :: c' in m <==> 0 <= c' < c && hand[c'] > 0
      {
        if hand[c] > 0 {
          m := m + {c};
        }
        c := c + 1;
      }
    }

    /** A fresh array holding `p`: the copy of the pattern an attempt
        writes its letters into. */
    method CopyOf(p: seq<char>) returns (cur: array<char>)
      ensures fresh(cur) && cur[..] == p
    {
      cur := new char[|p|];
      var k := 0;
      while k < |p|
        invariant 0 <= k <= |p| && cur[..k] == p[..k]
      {
        cur[k] := p[k];
        k := k + 1;
      }
    }

    /** One pass of the matcher's loop: the popped attempt tries every letter
        of its mask in its nearest positive gap and in its nearest negative
        gap, writing each letter into its own copy of the pattern. */
    method ExpandAttempt(ghost line: seq<char>, ps: int, ghost hand0: seq<nat>, a: Attempt)
      returns (found: seq<WordMatch>, children: seq<Attempt>)
      requires AllWords(Words)
      requires AttemptOk(line, ps, hand0, a)
      ensures forall m :: m in found ==> MatchOk(Words, line, ps, hand0, m)
      ensures forall c :: c in children ==> AttemptOk(line, ps, hand0, c)
      ensures |found| + 52 * Weight(children, Pending, 53) <= 52 * Pow(53, |a.gaps|)
      ensures Weight(children, Pending, 53) < Pow(53, |a.gaps|)
    {
      var G := a.gaps;
      var pg := FirstAbove(G, 0);
      var pg2 := FirstAbove(G, pg);
      var ng := FirstBelow(G, 0);
      var ng2 := FirstBelow(G, ng);
      FirstAboveNearest(G, 0);
      FirstAboveNearest(G, pg);
      FirstBelowNearest(G, 0);
      FirstBelowNearest(G, ng);
      var positiveGaps := KeepGaps(G, pg, false);
      ghost var otherGaps := KeepGaps(G, ng, false);
      var negativeGaps := KeepGaps(G, ng, true);
      KeepGapsSorted(G, pg, false);
      KeepGapsSorted(G, ng, false);
      KeepGapsSorted(G, ng, true);

      var cur := CopyOf(a.pattern);
      found, children := TryLetters(cur, line, ps, hand0, a, pg, pg2, ng, ng2, positiveGaps, otherGaps, negativeGaps);
      if G != [] {
        ExpansionBound(|found|, children, |G|);
      }
    }

    /** The matcher's loop over the letters, on the popped attempt's copy
        `cur` of its pattern. */
    method TryLetters(cur: array<char>, ghost line: seq<char>, ps: int, ghost hand0: seq<nat>, a: Attempt,
                      pg: int, pg2: int, ng: int, ng2: int, positiveGaps: seq<int>, ghost otherGaps: seq<int>, negativeGaps: seq<int>)
      returns (found: seq<WordMatch>, children: seq<Attempt>)
      requires AllWords(Words)
      requires AttemptInv(line, ps, hand0, cur[..], a.hand, a.mask, a.gaps)
      requires NearestAbove(a.gaps, 0, pg) && NearestAbove(a.gaps, pg, pg2)
      requires NearestBelow(a.gaps, 0, ng) && NearestBelow(a.gaps, ng, ng2)
      requires Without(positiveGaps, a.gaps, pg, false) && Distinct(positiveGaps) && SortedByDistance(positiveGaps)
      requires Without(otherGaps, a.gaps, ng, false) && Distinct(otherGaps) && SortedByDistance(otherGaps)
      requires Without(negativeGaps, a.gaps, ng, true) && Distinct(negativeGaps) && SortedByDistance(negativeGaps)
      requires pg != 0 ==> |positiveGaps| < |a.gaps|
      requires ng != 0 ==> |negativeGaps| < |a.gaps|
      modifies cur
      ensures |found| <= 52 && forall m :: m in found ==> MatchOk(Words, line, ps, hand0, m)
      ensures |children| <= 52 && forall c :: c in children ==> AttemptOk(line, ps, hand0, c) && |c.gaps| < |a.gaps|
      ensures a.gaps == [] ==> found == [] && children == []
    {
      found, children := [], [];
      var i := 0;
      while i < Alphabet
        invariant 0 <= i <= Alphabet
        invariant AttemptInv(line, ps, hand0, cur[..], a.hand, a.mask, a.gaps)
        invariant forall m :: m in found ==> MatchOk(Words, line, ps, hand0, m)
        invariant forall c :: c in children ==> AttemptOk(line, ps, hand0, c) && |c.gaps| < |a.gaps|
        invariant |found| <= 2 * i && |children| <= 2 * i
        invariant a.gaps == [] ==> found == [] && children == []
      {
        var f, c := TryLetter(cur, line, ps, hand0, a, i, pg, pg2, ng, ng2, positiveGaps, otherGaps, negativeGaps);
        found, children := found + f, children + c;
        i := i + 1;
      }
    }

    /** The body of the matcher's loop over the letters: when letter i is
        in the attempt's mask, it is tried in the nearest positive gap pg,
        then in the nearest negative gap ng, each branch that has its gap
        adding at most one match and one child. */
    method TryLetter(cur: array<char>, ghost line: seq<char>, ps: int, ghost hand0: seq<nat>, a: Attempt, i: int,
                     pg: int, pg2: int, ng: int, ng2: int, positiveGaps: seq<int>, ghost otherGaps: seq<int>, negativeGaps: seq<int>)
      returns (found: seq<WordMatch>, pushed: seq<Attempt>)
      requires AllWords(Words)
      requires AttemptInv(line, ps, hand0, cur[..], a.hand, a.mask, a.gaps)
      requires 0 <= i < Alphabet
      requires NearestAbove(a.gaps, 0, pg) && NearestAbove(a.gaps, pg, pg2)
      requires NearestBelow(a.gaps, 0, ng) && NearestBelow(a.gaps, ng, ng2)
      requires Without(positiveGaps, a.gaps, pg, false) && Distinct(positiveGaps) && SortedByDistance(positiveGaps)
      requires Without(otherGaps, a.gaps, ng, false) && Distinct(otherGaps) && SortedByDistance(otherGaps)
      requires Without(negativeGaps, a.gaps, ng, true) && Distinct(negativeGaps) && SortedByDistance(negativeGaps)
      requires pg != 0 ==> |positiveGaps| < |a.gaps|
      requires ng != 0 ==> |negativeGaps| < |a.gaps|
      modifies cur
      ensures AttemptInv(line, ps, hand0, cur[..], a.hand, a.mask, a.gaps)
      ensures |found| <= 2 && forall m :: m in found ==> MatchOk(Words, line, ps, hand0, m)
      ensures |pushed| <= 2 && forall c :: c in pushed ==> AttemptOk(line, ps, hand0, c) && |c.gaps| < |a.gaps|
      ensures a.gaps == [] ==> found == [] && pushed == []
    {
      found, pushed := [], [];
      if i in a.mask {
        if pg != 0 {
          var f, c := PositiveStep(cur, line, ps, hand0, a.hand, a.mask, a.gaps, i, pg, ng, pg2, positiveGaps);
          found, pushed := found + f, pushed + c;
        }
        if ng != 0 {
          var f, c := NegativeStep(cur, line, ps, hand0, a.hand, a.mask, a.gaps, i, ng, ng2, pg, otherGaps, negativeGaps);
          found, pushed := found + f, pushed + c;
        }
      }
    }

    /** The positive branch for letter i: the letter goes into the nearest
        positive gap pg of the popped attempt's pattern `cur`, the span
        between the nearest negative gap ng and the next positive gap pg2 is
        recorded when it is a word, and a copy of the pattern is pushed with
        pg filled when the index says some word holds the span and a letter
        is left to try. */
    method PositiveStep(cur: array<char>, ghost line: seq<char>, ps: int, ghost hand0: seq<nat>,
                        H: seq<nat>, M: Mask, G: seq<int>, i: int, pg: int, ng: int, pg2: int, G1: seq<int>)
      returns (found: seq<WordMatch>, pushed: seq<Attempt>)
      requires AllWords(Words)
      requires AttemptInv(line, ps, hand0, cur[..], H, M, G)
      requires 0 <= i < Alphabet && i in M
      requires NearestAbove(G, 0, pg) && pg != 0 && NearestBelow(G, 0, ng) && NearestAbove(G, pg, pg2)
      requires Without(G1, G, pg, false) && Distinct(G1) && SortedByDistance(G1) && |G1| < |G|
      modifies cur
      ensures cur[..] == old(cur[..])[ps + pg := Chr(i)]
      ensures AttemptInv(line, ps, hand0, cur[..], H, M, G)
      ensures |found| <= 1 && forall m :: m in found ==> MatchOk(Words, line, ps, hand0, m)
      ensures |pushed| <= 1 && forall c :: c in pushed ==> AttemptOk(line, ps, hand0, c) && |c.gaps| < |G|
    {
      ghost var P := cur[..];
      var letter := Chr(i);
      PositiveOutcome(Words, line, ps, hand0, P, H, M, G, i, pg, ng, pg2, G1);
      cur[ps + pg] := letter;
      ghost var Q := P[ps + pg := Chr(i)];
      assert cur[..] == Q;
      var start := SpanStart(ps, ng);
      var end := SpanEnd(ps, pg2, cur.Length);
      var nextHand := TakeTile(H, i);
      var nextBitmask := if nextHand[i] == 0 then M - {i} else M;
      var word := cur[start..end];
      assert word == Q[start..end];
      found := if word in Words then [WordMatch(word, start, nextHand)] else [];
      var narrowed := if word in ContainsIndex then nextBitmask * ContainsIndex[word] else {};
      Narrowed(line, ps, hand0, cur[..], nextHand, nextBitmask, narrowed, G1);
      pushed := if narrowed != {} then [Attempt(cur[..], nextHand, narrowed, G1)] else [];
    }

    /** The negative branch for letter i: the letter goes into the nearest
        negative gap ng of `cur`, the pattern up to just before the nearest
        positive gap pg is recorded from just after the next negative gap ng2
        when it is a word, and that cut copy is pushed with only the other
        negative gaps pending. */
    method NegativeStep(cur: array<char>, ghost line: seq<char>, ps: int, ghost hand0: seq<nat>,
                        H: seq<nat>, M: Mask, G: seq<int>, i: int, ng: int, ng2: int, pg: int,
                        ghost G1: seq<int>, G2: seq<int>)
      returns (found: seq<WordMatch>, pushed: seq<Attempt>)
      requires AllWords(Words)
      requires AttemptInv(line, ps, hand0, cur[..], H, M, G)
      requires 0 <= i < Alphabet && i in M
      requires NearestBelow(G, 0, ng) && ng != 0 && NearestBelow(G, ng, ng2) && NearestAbove(G, 0, pg)
      requires Without(G1, G, ng, false) && Distinct(G1) && SortedByDistance(G1)
      requires Without(G2, G, ng, true) && Distinct(G2) && SortedByDistance(G2) && |G2| < |G|
      modifies cur
      ensures cur[..] == old(cur[..])[ps + ng := Chr(i)]
      ensures AttemptInv(line, ps, hand0, cur[..], H, M, G)
      ensures |found| <= 1 && forall m :: m in found ==> MatchOk(Words, line, ps, hand0, m)
      ensures |pushed| <= 1 && forall c :: c in pushed ==> AttemptOk(line, ps, hand0, c) && |c.gaps| < |G|
    {
      ghost var P := cur[..];
      var letter := Chr(i);
      NegativeOutcome(Words, line, ps, hand0, P, H, M, G, i, ng, ng2, pg, G1, G2);
      cur[ps + ng] := letter;
      ghost var Q := P[ps + ng := Chr(i)];
      assert cur[..] == Q;
      var start := SpanStart(ps, ng2);
      var end := SpanEnd(ps, pg, cur.Length);
      var nextHand := TakeTile(H, i);
      var nextBitmask := if nextHand[i] == 0 then M - {i} else M;
      var word := cur[start..end];
      assert word == Q[start..end] && cur[..end] == Q[..end];
      found := if word in Words then [WordMatch(word, start, nextHand)] else [];
      var narrowed := if word in ContainsIndex then nextBitmask * ContainsIndex[word] else {};
      Narrowed(line, ps, hand0, cur[..end], nextHand, nextBitmask, narrowed, G2);
      pushed := if narrowed != {} then [Attempt(cur[..end], nextHand, narrowed, G2)] else [];
    }

    // ---------------------------------------------------------- validator

    /** `PerpendicularMovesValid`: the move is valid when every word it makes
        across itself is one letter long or a dictionary word; the check
        stops at the first letter whose cross word fails. It kills when a
        letter looked at before that stop lands on or next to a cell of
        another player. `buffer` is the caller's scratch buffer. */
    method PerpendicularMovesValid(b: Board, m: Move, buffer: array<char>) returns (moveValid: bool, kill: bool)
      requires WellFormed(b) && MoveInGrid(b, m)
      requires buffer.Length >= Max(b.width, b.height)
      modifies buffer
      ensures moveValid == CrossOkBefore(Words, b, m, |m.word|)
      ensures kill == KillScanned(Words, b, m, |m.word|)
    {
      kill := false;
      moveValid := true;
      var i := 0;
      while i < |m.word| && moveValid
        invariant 0 <= i <= |m.word|
        invariant moveValid == CrossOkBefore(Words, b, m, i)
        invariant kill == KillScanned(Words, b, m, i)
      {
        moveValid, kill := ScanLetter(b, m, i, kill, buffer);
        i := i + 1;
      }
      ScanFinished(Words, b, m, i);
    }

    /** One turn of the loop of `PerpendicularMovesValid`, reached while
        every cross word before letter i is acceptable: the check of letter
        i decides whether the scan goes on, and its kill flag joins the
        others. */
    method ScanLetter(b: Board, m: Move, i: int, killBefore: bool, buffer: array<char>) returns (moveValid: bool, kill: bool)
      requires WellFormed(b) && MoveInGrid(b, m) && 0 <= i < |m.word|
      requires CrossOkBefore(Words, b, m, i) && killBefore == KillScanned(Words, b, m, i)
      requires buffer.Length >= Max(b.width, b.height)
      modifies buffer
      ensures moveValid == CrossOkBefore(Words, b, m, i + 1)
      ensures kill == KillScanned(Words, b, m, i + 1)
    {
      var killHere;
      moveValid, killHere := CheckLetter(b, m, i, buffer);
      ScanStep(Words, b, m, i);
      kill := killBefore || killHere;
    }

    /** One letter of `PerpendicularMovesValid`: the word across it is built
        in `buffer`; it is acceptable when at most one letter long or in the
        dictionary. */
    method CheckLetter(b: Board, m: Move, i: int, buffer: array<char>) returns (ok: bool, kill: bool)
      requires WellFormed(b) && MoveInGrid(b, m) && 0 <= i < |m.word|
      requires buffer.Length >= Max(b.width, b.height)
      modifies buffer
      ensures ok == CrossOk(Words, b, m, i) && kill == KillAt(b, m, i)
    {
      var line, owners := CrossLine(b, m, i), CrossOwners(b, m, i);
      var positionInBuffer;
      positionInBuffer, kill := ReadCross(line, owners, CrossAt(m), m.word[i], buffer);
      ok := true;
      if positionInBuffer > 1 {
        var word := buffer[..positionInBuffer];
        ok := word in Words;
      }
    }
  }

  /** The word along a line through the letter placed at cell p, built in
      `buffer`: the run before it read backwards and reversed, the letter,
      then the run after it. */
  method ReadCross(line: seq<char>, owners: seq<nat>, p: int, letter: char, buffer: array<char>) returns (positionInBuffer: nat, kill: bool)
    requires |owners| == |line| && 0 <= p < |line| <= buffer.Length
    modifies buffer
    ensures positionInBuffer <= buffer.Length && buffer[..positionInBuffer] == LineWord(line, p, letter)
    ensures kill == LineKill(line, owners, p)
  {
    var killBefore;
    positionInBuffer, killBefore := ReadBefore(line, owners, p, buffer);
    buffer[positionInBuffer] := Lower(letter);
    positionInBuffer := positionInBuffer + 1;
    var killOwn := owners[p] > 1;
    ghost var front := buffer[..positionInBuffer];
    assert front == RunBefore(line, p) + [Lower(letter)];
    var killAfter;
    positionInBuffer, killAfter := ReadAfter(line, owners, p, buffer, positionInBuffer);
    assert buffer[..positionInBuffer] == front + buffer[|front|..positionInBuffer];
    kill := killBefore || killOwn || killAfter;
  }

  /** The backward scan along a line from cell p: the letters before it,
      up to a blank or the edge, read backwards and then reversed in
      place. */
  method ReadBefore(line: seq<char>, owners: seq<nat>, start: int, buffer: array<char>) returns (positionInBuffer: nat, kill: bool)
    requires |owners| == |line| && 0 <= start < |line| <= buffer.Length
    modifies buffer
    ensures positionInBuffer <= start && buffer[..positionInBuffer] == RunBefore(line, start)
    ensures kill == (start > 0 && line[start - 1] != Blank && owners[start - 1] > 1)
  {
    kill := false;
    positionInBuffer := 0;
    var j := -1;
    while start + j >= 0
      invariant -1 >= j >= -start - 1
      invariant positionInBuffer == -j - 1
      invariant RunBefore(line, start) == RunBefore(line, start + j + 1) + Reverse(buffer[..positionInBuffer])
      invariant kill == (j < -1 && line[start - 1] != Blank && owners[start - 1] > 1)
    {
      var c, owner := line[start + j], owners[start + j];
      if c == Blank {
        break;
      }
      if j == -1 && owner > 1 {
        kill := true;
      }
      ghost var read := buffer[..positionInBuffer];
      RunBeforeStep(line, start + j, read);
      buffer[positionInBuffer] := Lower(c);
      assert buffer[..positionInBuffer + 1] == read + [Lower(c)];
      positionInBuffer := positionInBuffer + 1;
      j := j - 1;
    }
    ReverseInPlace(buffer, positionInBuffer);
  }

  /** The forward scan along a line from cell p: the letters after it, up
      to a blank or the last cell of the line, which it never reads; they
      go into `buffer` from `from` on. */
  method ReadAfter(line: seq<char>, owners: seq<nat>, start: int, buffer: array<char>, from: nat) returns (positionInBuffer: nat, kill: bool)
    requires |owners| == |line| && 0 <= start < |line| <= buffer.Length && from <= start + 1
    modifies buffer
    ensures from <= positionInBuffer <= buffer.Length
    ensures buffer[..from] == old(buffer[..from])
    ensures buffer[from..positionInBuffer] == RunAfter(line, start + 1)
    ensures kill == (start + 2 < |line| && line[start + 1] != Blank && owners[start + 1] > 1)
  {
    kill := false;
    positionInBuffer := from;
    var j := 1;
    while start + j + 1 < |line|
      invariant 1 <= j && start + j <= |line| && positionInBuffer == from + j - 1
      invariant buffer[..from] == old(buffer[..from])
      invariant RunAfter(line, start + 1) == buffer[from..positionInBuffer] + RunAfter(line, start + j)
      invariant kill == (j > 1 && line[start + 1] != Blank && owners[start + 1] > 1)
    {
      var c, owner := line[start + j], owners[start + j];
      if c == Blank {
        break;
      }
      if j == 1 && owner > 1 {
        kill := true;
      }
      ghost var read := buffer[from..positionInBuffer];
      RunAfterStep(line, start + j, read);
      buffer[positionInBuffer] := Lower(c);
      assert buffer[from..positionInBuffer + 1] == read + [Lower(c)];
      positionInBuffer := positionInBuffer + 1;
      j := j + 1;
    }
  }

  /** The in-place reversal of the first n cells of `buffer`. */
  method ReverseInPlace(buffer: array<char>, n: nat)
    requires n <= buffer.Length
    modifies buffer
    ensures buffer[..n] == Reverse(old(buffer[..n]))
    ensures buffer[n..] == old(buffer[n..])
  {
    var j := 0;
    while j < n / 2
      invariant 0 <= j <= n / 2
      invariant forall k :: 0 <= k < j ==> buffer[k] == old(buffer[n - 1 - k]) && buffer[n - 1 - k] == old(buffer[k])
      invariant forall k :: j <= k < n - j ==> buffer[k] == old(buffer[k])
      invariant buffer[n..] == old(buffer[n..])
    {
      var temp := buffer[j];
      buffer[j] := buffer[n - j - 1];
      buffer[n - j - 1] := temp;
      j := j + 1;
    }
  }
}
