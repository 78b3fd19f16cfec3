/** The specification side of `Solver.MatchPattern`: the gaps of a line,
    their order, the cells an attempt has filled, and what every returned
    match satisfies. */
module Patterns {
  import opened Common

  /** `Solver.WordMatch`. */
  datatype WordMatch = WordMatch(word: string, start: int, remainingHand: seq<nat>)

  // ------------------------------------------------------------------ gaps

  /** Offset g from cell ps of a line is a blank cell of the line. */
  predicate Gap(line: seq<char>, ps: int, g: int)
  {
    0 <= ps + g < |line| && line[ps + g] == Blank
  }

  /** Offsets from the anchor cell `ps` of the blank cells of `line`, left
      to right. */
  function GapOffsets(line: seq<char>, ps: int): (gs: seq<int>)
    ensures |gs| <= |line|
    ensures forall g :: g in gs <==> Gap(line, ps, g)
    ensures forall i, j :: 0 <= i < j < |gs| ==> gs[i] < gs[j]
  {
    if line == [] then []
    else
      var n := |line| - 1;
      var front := GapOffsets(line[..n], ps);
      assert forall g :: Gap(line[..n], ps, g) <==> Gap(line, ps, g) && ps + g < n;
      assert forall i :: 0 <= i < |front| ==> front[i] in front && front[i] < n - ps;
      front + (if line[n] == Blank then [n - ps] else [])
  }

  /** The gap scan runs over the whole shared buffer rather than its first
      `length` cells. With the buffer "ab_" (its last cell left over from a
      longer column), a row of length 2 and the anchor at 0, the scan
      reports gap 2, a cell outside the two-cell copy that the attempts
      write into; the scan of the row itself reports no gap. */
  lemma StaleGapOutsideCopy()
    ensures GapOffsets("ab_", 0) == [2]
    ensures 0 + 2 >= |"ab_"[..2]|
    ensures GapOffsets("ab_"[..2], 0) == []
  {
    assert "ab_"[..2] == "ab";
    assert "ab"[..1] == "a";
    assert GapOffsets("ab", 0) == [];
  }

  // ------------------------------------------------------ distance order

  predicate SortedByDistance(gs: seq<int>)
  {
    forall i, j :: 0 <= i < j < |gs| ==> Abs(gs[i]) <= Abs(gs[j])
  }

  predicate Distinct(gs: seq<int>)
  {
    forall i, j :: 0 <= i < j < |gs| ==> gs[i] != gs[j]
  }

  /** Inserts g after every element at most as far from the anchor. */
  function InsertByDistance(gs: seq<int>, g: int): (r: seq<int>)
    ensures multiset(r) == multiset(gs) + multiset{g}
  {
    if gs == [] then [g]
    else
      var n := |gs| - 1;
      assert gs == gs[..n] + [gs[n]];
      if Abs(gs[n]) <= Abs(g) then gs + [g]
      else InsertByDistance(gs[..n], g) + [gs[n]]
  }

  /** Every element of the insertion is g or an element of gs. */
  lemma InsertByDistanceFrom(gs: seq<int>, g: int)
    ensures forall x :: x in InsertByDistance(gs, g) ==> x == g || x in gs
  {
    forall x | x in InsertByDistance(gs, g)
      ensures x == g || x in gs
    {
      assert x in multiset(InsertByDistance(gs, g));
    }
  }

  lemma {:induction false} InsertByDistanceSorted(gs: seq<int>, g: int)
    requires SortedByDistance(gs)
    ensures SortedByDistance(InsertByDistance(gs, g))
  {
    if gs != [] {
      var n := |gs| - 1;
      var last := gs[n];
      if Abs(last) > Abs(g) {
        var init := gs[..n];
        InsertByDistanceSorted(init, g);
        InsertByDistanceFrom(init, g);
        var front := InsertByDistance(init, g);
        assert forall i :: 0 <= i < |front| ==> front[i] in front;
      }
    }
  }

  lemma {:induction false} InsertByDistanceDistinct(gs: seq<int>, g: int)
    requires Distinct(gs) && g !in gs
    ensures Distinct(InsertByDistance(gs, g))
  {
    if gs != [] {
      var n := |gs| - 1;
      var last := gs[n];
      if Abs(last) > Abs(g) {
        var init := gs[..n];
        InsertByDistanceDistinct(init, g);
        InsertByDistanceFrom(init, g);
        var front := InsertByDistance(init, g);
        assert last !in init;
        assert forall i :: 0 <= i < |front| ==> front[i] in front;
      }
    }
  }

  /** `OrderBy(g => Math.Abs(g))`: a stable sort by distance from the
      anchor. */
  function ByDistance(gs: seq<int>): (r: seq<int>)
    ensures multiset(r) == multiset(gs)
  {
    if gs == [] then []
    else
      var n := |gs| - 1;
      assert gs == gs[..n] + [gs[n]];
      InsertByDistance(ByDistance(gs[..n]), gs[n])
  }

  /** The sorted gaps are ordered by distance, and distinct gaps stay
      distinct. */
  lemma {:induction false} ByDistanceSorted(gs: seq<int>)
    ensures SortedByDistance(ByDistance(gs))
    ensures Distinct(gs) ==> Distinct(ByDistance(gs))
  {
    if gs != [] {
      var n := |gs| - 1;
      ByDistanceSorted(gs[..n]);
      var front := ByDistance(gs[..n]);
      assert gs[n] in multiset(front) <==> gs[n] in multiset(gs[..n]);
      InsertByDistanceSorted(front, gs[n]);
      if Distinct(gs) {
        InsertByDistanceDistinct(front, gs[n]);
      }
    }
  }

  lemma DistinctIncreasing(gs: seq<int>)
    requires forall i, j :: 0 <= i < j < |gs| ==> gs[i] < gs[j]
    ensures Distinct(gs)
  {
  }

  /** `FirstOrDefault(g => g > b)`: the first offset above b, or 0. */
  function FirstAbove(gs: seq<int>, b: int): (r: int)
    ensures r == 0 || (r in gs && r > b)
  {
    if gs == [] then 0 else if gs[0] > b then gs[0] else FirstAbove(gs[1..], b)
  }

  /** `FirstOrDefault(g => g < b)`: the first offset below b, or 0. */
  function FirstBelow(gs: seq<int>, b: int): (r: int)
    ensures r == 0 || (r in gs && r < b)
  {
    if gs == [] then 0 else if gs[0] < b then gs[0] else FirstBelow(gs[1..], b)
  }

  /** r is the nearest offset of gs above b, or 0 when there is none. */
  ghost predicate NearestAbove(gs: seq<int>, b: int, r: int)
  {
    (r == 0 ==> forall g :: g in gs ==> g <= b) &&
    (r != 0 ==> r in gs && r > b) &&
    forall g :: g in gs && g > b ==> r <= g
  }

  /** r is the nearest offset of gs below b, or 0 when there is none. */
  ghost predicate NearestBelow(gs: seq<int>, b: int, r: int)
  {
    (r == 0 ==> forall g :: g in gs ==> g >= b) &&
    (r != 0 ==> r in gs && r < b) &&
    forall g :: g in gs && g < b ==> g <= r
  }

  /** In a list sorted by distance, the first offset above b >= 0 is the
      nearest offset above b. */
  lemma {:induction false} FirstAboveNearest(gs: seq<int>, b: int)
    requires SortedByDistance(gs) && 0 <= b
    ensures NearestAbove(gs, b, FirstAbove(gs, b))
  {
    if gs != [] && gs[0] <= b {
      FirstAboveNearest(gs[1..], b);
      assert forall g :: g in gs ==> g == gs[0] || g in gs[1..];
    }
  }

  /** The mirror image of `FirstAboveNearest` for b <= 0. */
  lemma {:induction false} FirstBelowNearest(gs: seq<int>, b: int)
    requires SortedByDistance(gs) && b <= 0
    ensures NearestBelow(gs, b, FirstBelow(gs, b))
  {
    if gs != [] && gs[0] >= b {
      FirstBelowNearest(gs[1..], b);
      assert forall g :: g in gs ==> g == gs[0] || g in gs[1..];
    }
  }

  /** `gaps.Where(gap => gap != x)`, or with `negativeOnly`
      `gaps.Where(gap => gap != x && gap < 0)`. */
  function KeepGaps(gs: seq<int>, x: int, negativeOnly: bool): (r: seq<int>)
    ensures forall g :: g in r <==> g in gs && g != x && (negativeOnly ==> g < 0)
    ensures |r| <= |gs| && (x in gs ==> |r| < |gs|)
  {
    if gs == [] then []
    else
      var n := |gs| - 1;
      assert gs == gs[..n] + [gs[n]];
      KeepGaps(gs[..n], x, negativeOnly) + (if gs[n] != x && (negativeOnly ==> gs[n] < 0) then [gs[n]] else [])
  }

  /** G1 holds the offsets of G other than x (and only the negative ones
      with `negativeOnly`): what `KeepGaps` computes. */
  ghost predicate Without(G1: seq<int>, G: seq<int>, x: int, negativeOnly: bool)
  {
    forall g :: g in G1 <==> g in G && g != x && (negativeOnly ==> g < 0)
  }

  /** Filtering keeps the order by distance and distinctness. */
  lemma {:induction false} KeepGapsSorted(gs: seq<int>, x: int, negativeOnly: bool)
    requires SortedByDistance(gs) && Distinct(gs)
    ensures SortedByDistance(KeepGaps(gs, x, negativeOnly)) && Distinct(KeepGaps(gs, x, negativeOnly))
  {
    if gs != [] {
      var n := |gs| - 1;
      KeepGapsSorted(gs[..n], x, negativeOnly);
      var front := KeepGaps(gs[..n], x, negativeOnly);
      forall i | 0 <= i < |front|
        ensures Abs(front[i]) <= Abs(gs[n]) && front[i] != gs[n]
      {
        assert front[i] in front;
        var j :| 0 <= j < n && gs[..n][j] == front[i];
        assert gs[j] == front[i];
      }
    }
  }

  // ----------------------------------------------------------------- hands

  /** `handBitmask`: the letters of which the hand holds a tile. */
  function HandMask(hand: seq<nat>): (m: Mask)
    ensures forall c :: c in m <==> 0 <= c < |hand| && hand[c] > 0
  {
    set c | 0 <= c < |hand| && hand[c] > 0
  }

  /** `nextHand`: the hand with one tile of letter c taken, clamped at 0. */
  function TakeTile(hand: seq<nat>, c: int): seq<nat>
    requires 0 <= c < |hand|
  {
    hand[c := if hand[c] == 0 then 0 else hand[c] - 1]
  }

  // ------------------------------------------------------------ the match

  /** The letters of w that sit on blank cells of `line` when w is laid at
      s: the tiles the word takes from the hand. */
  function GapLetters(line: seq<char>, w: string, s: int): multiset<char>
    requires 0 <= s && s + |w| <= |line|
  {
    if w == [] then multiset{}
    else GapLetters(line, w[..|w| - 1], s) + (if line[s + |w| - 1] == Blank then multiset{w[|w| - 1]} else multiset{})
  }

  /** What every match of `MatchPattern` satisfies: the word is a dictionary
      word laid on the line at `start` across the anchor cell `ps`; blank
      cells or the ends of the line bound it; it keeps every letter already
      on the line and covers at least one blank; and the remaining hand is
      the hand less exactly the letters the word puts on blank cells. */
  ghost predicate MatchOk(words: set<string>, line: seq<char>, ps: int, hand: seq<nat>, m: WordMatch)
  {
    var s, e := m.start, m.start + |m.word|;
    |hand| == Alphabet && |m.remainingHand| == Alphabet &&
    0 <= s <= ps < e <= |line| &&
    m.word in words &&
    (s == 0 || line[s - 1] == Blank) && (e == |line| || line[e] == Blank) &&
    (forall k :: s <= k < e && line[k] != Blank ==> m.word[k - s] == line[k]) &&
    (exists k :: s <= k < e && line[k] == Blank) &&
    forall c :: 0 <= c < Alphabet ==> hand[c] == m.remainingHand[c] + GapLetters(line, m.word, s)[Chr(c)]
  }

  lemma {:induction false} GapLettersHasBlank(line: seq<char>, w: string, s: int, k: int)
    requires 0 <= s && s + |w| <= |line|
    requires s <= k < s + |w| && line[k] == Blank
    ensures w[k - s] in GapLetters(line, w, s)
  {
    var n := |w| - 1;
    if k < s + n {
      GapLettersHasBlank(line, w[..n], s, k);
    }
  }

  /** Every match takes at least one tile and never more than the hand
      holds of a letter, so the hand shrinks. */
  lemma MatchConsumesTiles(words: set<string>, line: seq<char>, ps: int, hand: seq<nat>, m: WordMatch)
    requires MatchOk(words, line, ps, hand, m)
    requires forall w :: w in words ==> IsWord(w)
    ensures forall c :: 0 <= c < Alphabet ==> m.remainingHand[c] <= hand[c]
    ensures Total(m.remainingHand) < Total(hand)
  {
    var k :| m.start <= k < m.start + |m.word| && line[k] == Blank;
    GapLettersHasBlank(line, m.word, m.start, k);
    var c := Index(m.word[k - m.start]);
    assert m.remainingHand[c] < hand[c];
    TotalDecreases(hand, m.remainingHand);
  }

  // ------------------------------------------------------------ attempts

  /** Cell k has been filled by an attempt with pattern P and pending gaps
      G: it is blank in the line, is not the anchor cell and is no longer a
      pending gap. */
  predicate FilledAt(line: seq<char>, P: seq<char>, ps: int, G: seq<int>, k: int)
  {
    0 <= k < |P| && k < |line| && line[k] == Blank && k != ps && (k - ps) !in G
  }

  /** The letters written into the filled cells among [lo, hi). */
  function FilledBag(line: seq<char>, P: seq<char>, ps: int, G: seq<int>, lo: int, hi: int): multiset<char>
    decreases hi - lo
  {
    if hi <= lo then multiset{}
    else FilledBag(line, P, ps, G, lo, hi - 1) + (if FilledAt(line, P, ps, G, hi - 1) then multiset{P[hi - 1]} else multiset{})
  }

  lemma {:induction false} FilledBagSplit(line: seq<char>, P: seq<char>, ps: int, G: seq<int>, lo: int, mid: int, hi: int)
    requires lo <= mid <= hi
    ensures FilledBag(line, P, ps, G, lo, hi) == FilledBag(line, P, ps, G, lo, mid) + FilledBag(line, P, ps, G, mid, hi)
    decreases hi - mid
  {
    if mid < hi {
      FilledBagSplit(line, P, ps, G, lo, mid, hi - 1);
    }
  }

  lemma {:induction false} FilledBagNone(line: seq<char>, P: seq<char>, ps: int, G: seq<int>, lo: int, hi: int)
    requires forall k :: lo <= k < hi ==> !FilledAt(line, P, ps, G, k)
    ensures FilledBag(line, P, ps, G, lo, hi) == multiset{}
    decreases hi - lo
  {
    if lo < hi {
      FilledBagNone(line, P, ps, G, lo, hi - 1);
    }
  }

  /** Two attempts that fill the same cells of [lo, hi) with the same
      letters have the same filled letters there. */
  lemma {:induction false} FilledBagSame(line: seq<char>, P: seq<char>, P': seq<char>, ps: int, G: seq<int>, G': seq<int>, lo: int, hi: int)
    requires forall k :: lo <= k < hi ==>
      FilledAt(line, P, ps, G, k) == FilledAt(line, P', ps, G', k) && (FilledAt(line, P, ps, G, k) ==> P[k] == P'[k])
    ensures FilledBag(line, P, ps, G, lo, hi) == FilledBag(line, P', ps, G', lo, hi)
    decreases hi - lo
  {
    if lo < hi {
      FilledBagSame(line, P, P', ps, G, G', lo, hi - 1);
    }
  }

  /** Filling one more cell q adds its letter. */
  lemma FilledBagAdd(line: seq<char>, P: seq<char>, P': seq<char>, ps: int, G: seq<int>, G': seq<int>, q: int, lo: int, hi: int)
    requires lo <= q < hi
    requires FilledAt(line, P', ps, G', q) && !FilledAt(line, P, ps, G, q)
    requires forall k :: lo <= k < hi && k != q ==>
      FilledAt(line, P, ps, G, k) == FilledAt(line, P', ps, G', k) && (FilledAt(line, P, ps, G, k) ==> P[k] == P'[k])
    ensures FilledBag(line, P', ps, G', lo, hi) == FilledBag(line, P, ps, G, lo, hi) + multiset{P'[q]}
  {
    FilledBagSplit(line, P, ps, G, lo, q, hi);
    FilledBagSplit(line, P, ps, G, q, q + 1, hi);
    FilledBagSplit(line, P', ps, G', lo, q, hi);
    FilledBagSplit(line, P', ps, G', q, q + 1, hi);
    FilledBagSame(line, P, P', ps, G, G', lo, q);
    FilledBagSame(line, P, P', ps, G, G', q + 1, hi);
  }

  /** One more letter of a word adds it to the letters on blanks when its
      cell is blank. */
  lemma GapLettersSnoc(line: seq<char>, u: string, c: char, s: int)
    requires 0 <= s && s + |u| < |line|
    ensures GapLetters(line, u + [c], s) ==
      GapLetters(line, u, s) + (if line[s + |u|] == Blank then multiset{c} else multiset{})
  {
    assert (u + [c])[..|u|] == u;
  }

  /** Over a span whose blank cells are exactly its filled cells, the
      letters on blanks of the span are the filled letters. */
  lemma {:induction false} SpanLetters(line: seq<char>, P: seq<char>, ps: int, G: seq<int>, s: int, e: int)
    requires 0 <= s <= e <= |P| && e <= |line|
    requires forall k :: s <= k < e ==> (line[k] == Blank <==> FilledAt(line, P, ps, G, k))
    ensures GapLetters(line, P[s..e], s) == FilledBag(line, P, ps, G, s, e)
    decreases e - s
  {
    if s < e {
      SpanLetters(line, P, ps, G, s, e - 1);
      SpanStep(line, P, ps, G, s, e);
    }
  }

  /** Extending the span by one cell keeps the two bags equal. */
  lemma SpanStep(line: seq<char>, P: seq<char>, ps: int, G: seq<int>, s: int, e: int)
    requires 0 <= s < e <= |P| && e <= |line|
    requires line[e - 1] == Blank <==> FilledAt(line, P, ps, G, e - 1)
    requires GapLetters(line, P[s..e - 1], s) == FilledBag(line, P, ps, G, s, e - 1)
    ensures GapLetters(line, P[s..e], s) == FilledBag(line, P, ps, G, s, e)
  {
    GapLettersSlice(line, P, s, e);
    assert FilledBag(line, P, ps, G, s, e) ==
      FilledBag(line, P, ps, G, s, e - 1) + (if FilledAt(line, P, ps, G, e - 1) then multiset{P[e - 1]} else multiset{});
  }

  /** The letters on blanks of P[s..e] are those of P[s..e - 1], and the
      last letter when its cell is blank. */
  lemma GapLettersSlice(line: seq<char>, P: seq<char>, s: int, e: int)
    requires 0 <= s < e <= |P| && e <= |line|
    ensures GapLetters(line, P[s..e], s) ==
      GapLetters(line, P[s..e - 1], s) + (if line[e - 1] == Blank then multiset{P[e - 1]} else multiset{})
  {
    var u := P[s..e - 1];
    assert s + |u| == e - 1;
    assert P[s..e] == u + [P[e - 1]];
    GapLettersSnoc(line, u, P[e - 1], s);
  }

  // The invariant of an attempt on the stack of `MatchPattern`, for the
  // line (the first `length` cells of the buffer), the anchor cell ps and
  // the hand hand0 the search started from. P is the attempt's pattern, H
  // its hand, M its letter mask and G its pending gaps.

  /** The pattern is the line, possibly cut just before a blank cell, and
      holds the anchor cell. */
  ghost predicate Shape(line: seq<char>, ps: int, P: seq<char>)
  {
    0 <= ps < |P| <= |line| && (|P| == |line| || line[|P|] == Blank)
  }

  /** Pending gaps are distinct, nearest first, and blank cells of the
      pattern. */
  ghost predicate GapsOk(line: seq<char>, ps: int, P: seq<char>, G: seq<int>)
  {
    Distinct(G) && SortedByDistance(G) && GapCells(line, ps, P, G)
  }

  ghost predicate GapCells(line: seq<char>, ps: int, P: seq<char>, G: seq<int>)
  {
    forall g :: g in G ==> 0 <= ps + g < |P| && ps + g < |line| && line[ps + g] == Blank
  }

  /** Letters of the line and the anchor cell are never overwritten. */
  ghost predicate Kept(line: seq<char>, ps: int, P: seq<char>)
  {
    forall k :: 0 <= k < |P| && k < |line| && (line[k] != Blank || k == ps) ==> P[k] == line[k]
  }

  /** Filled cells hold letters and lie nearer the anchor than every pending
      gap on their side. */
  ghost predicate FilledNearest(line: seq<char>, P: seq<char>, ps: int, G: seq<int>)
  {
    forall k :: FilledAt(line, P, ps, G, k) ==>
      IsLower(P[k]) && forall g :: g in G && g != 0 && (g > 0 <==> k > ps) ==> Abs(k - ps) < Abs(g)
  }

  /** The hand has lost exactly the filled letters. */
  ghost predicate Accounts(line: seq<char>, ps: int, hand0: seq<nat>, P: seq<char>, H: seq<nat>, G: seq<int>)
  {
    |hand0| == Alphabet && |H| == Alphabet &&
    forall c :: 0 <= c < Alphabet ==> hand0[c] == H[c] + FilledBag(line, P, ps, G, 0, |P|)[Chr(c)]
  }

  /** The mask only holds letters of which the hand has a tile. */
  ghost predicate MaskHeld(H: seq<nat>, M: Mask)
  {
    forall c :: c in M ==> 0 <= c < |H| && H[c] > 0
  }

  /** The part of the invariant that makes a span of the pattern a match. */
  ghost predicate SpanInv(line: seq<char>, ps: int, hand0: seq<nat>, P: seq<char>, H: seq<nat>, G: seq<int>)
  {
    Shape(line, ps, P) && GapCells(line, ps, P, G) && Kept(line, ps, P) && FilledNearest(line, P, ps, G) &&
    Accounts(line, ps, hand0, P, H, G)
  }

  ghost predicate AttemptInv(line: seq<char>, ps: int, hand0: seq<nat>, P: seq<char>, H: seq<nat>, M: Mask, G: seq<int>)
  {
    Shape(line, ps, P) && GapsOk(line, ps, P, G) && Kept(line, ps, P) && FilledNearest(line, P, ps, G) &&
    Accounts(line, ps, hand0, P, H, G) && MaskHeld(H, M)
  }

  /** The gaps of a line ordered by distance are distinct and ordered by
      distance. */
  lemma GapOrderSorted(line: seq<char>, ps: int)
    ensures Distinct(ByDistance(GapOffsets(line, ps))) && SortedByDistance(ByDistance(GapOffsets(line, ps)))
  {
    DistinctIncreasing(GapOffsets(line, ps));
    ByDistanceSorted(GapOffsets(line, ps));
  }

  /** The gaps of a line ordered by distance are distinct, ordered by
      distance, exactly the offsets of its blank cells, and no more than
      its cells. */
  lemma GapOrder(line: seq<char>, ps: int, gaps: seq<int>)
    requires gaps == ByDistance(GapOffsets(line, ps))
    ensures Distinct(gaps) && SortedByDistance(gaps)
    ensures forall g :: g in gaps <==> Gap(line, ps, g)
    ensures |gaps| <= |line|
  {
    var gs := GapOffsets(line, ps);
    GapOrderSorted(line, ps);
    ByDistanceMembers(gs);
    assert |multiset(gaps)| == |multiset(gs)|;
  }

  /** Ordering by distance keeps exactly the offsets it is given. */
  lemma ByDistanceMembers(gs: seq<int>)
    ensures forall g :: g in ByDistance(gs) <==> g in gs
  {
    var r := ByDistance(gs);
    forall g
      ensures g in r <==> g in gs
    {
      assert g in r <==> g in multiset(r);
      assert g in gs <==> g in multiset(gs);
    }
  }

  /** The first attempt: the line itself, the whole hand and every blank
      cell pending. */
  lemma InitialAttempt(line: seq<char>, ps: int, hand: seq<nat>, G: seq<int>)
    requires 0 <= ps < |line| && |hand| == Alphabet
    requires Distinct(G) && SortedByDistance(G)
    requires forall g :: g in G <==> Gap(line, ps, g)
    ensures AttemptInv(line, ps, hand, line, hand, HandMask(hand), G)
  {
    forall k | 0 <= k < |line| && line[k] == Blank
      ensures k - ps in G
    {
      assert line[ps + (k - ps)] == Blank;
    }
    FilledBagNone(line, line, ps, G, 0, |line|);
  }

  /** Writing any letter into a pending gap of the popped attempt's pattern
      keeps the attempt's invariant: the cell is not a filled one. */
  lemma WriteGap(line: seq<char>, ps: int, hand0: seq<nat>, P: seq<char>, H: seq<nat>, M: Mask, G: seq<int>, g: int, L: char)
    requires AttemptInv(line, ps, hand0, P, H, M, G)
    requires g in G && g != 0
    ensures AttemptInv(line, ps, hand0, P[ps + g := L], H, M, G)
  {
    var P' := P[ps + g := L];
    FilledBagSame(line, P, P', ps, G, G, 0, |P|);
  }

  /** g is the nearest pending gap on its side of the anchor. */
  ghost predicate NearestGap(G: seq<int>, g: int)
  {
    g in G && g != 0 && forall g' :: g' in G && g' != 0 && (g' > 0 <==> g > 0) ==> Abs(g) <= Abs(g')
  }

  /** The nearest offset above 0 is the nearest pending gap on its side. */
  lemma AboveIsNearestGap(G: seq<int>, pg: int)
    requires NearestAbove(G, 0, pg) && pg != 0
    ensures NearestGap(G, pg)
  {
  }

  /** The nearest offset below 0 is the nearest pending gap on its side. */
  lemma BelowIsNearestGap(G: seq<int>, ng: int)
    requires NearestBelow(G, 0, ng) && ng != 0
    ensures NearestGap(G, ng)
  {
  }

  lemma FillGapNearest(line: seq<char>, ps: int, P: seq<char>, G: seq<int>, g: int, L: char, G1: seq<int>)
    requires Shape(line, ps, P) && GapsOk(line, ps, P, G) && FilledNearest(line, P, ps, G)
    requires NearestGap(G, g) && IsLower(L)
    requires Distinct(G1) && forall x :: x in G1 <==> x in G && x != g
    ensures FilledNearest(line, P[ps + g := L], ps, G1)
    ensures forall k :: 0 <= k < |P| && k != ps + g ==>
      FilledAt(line, P, ps, G, k) == FilledAt(line, P[ps + g := L], ps, G1, k) &&
      (FilledAt(line, P, ps, G, k) ==> P[k] == P[ps + g := L][k])
    ensures FilledAt(line, P[ps + g := L], ps, G1, ps + g) && !FilledAt(line, P, ps, G, ps + g)
  {
    var P' := P[ps + g := L];
    forall k | FilledAt(line, P', ps, G1, k)
      ensures IsLower(P'[k]) && forall g' :: g' in G1 && g' != 0 && (g' > 0 <==> k > ps) ==> Abs(k - ps) < Abs(g')
    {
      if k != ps + g {
        assert FilledAt(line, P, ps, G, k);
      }
    }
  }

  /** Filling the nearest gap on one side with a letter of the mask and
      taking that tile from the hand keeps the invariant, with any mask of
      letters the new hand still holds and the gap no longer pending. */
  lemma FillGap(line: seq<char>, ps: int, hand0: seq<nat>, P: seq<char>, H: seq<nat>, M: Mask, G: seq<int>,
                g: int, L: char, M': Mask, G1: seq<int>)
    requires AttemptInv(line, ps, hand0, P, H, M, G)
    requires NearestGap(G, g)
    requires IsLower(L) && Index(L) in M
    requires Distinct(G1) && SortedByDistance(G1) && forall x :: x in G1 <==> x in G && x != g
    requires MaskHeld(TakeTile(H, Index(L)), M')
    ensures AttemptInv(line, ps, hand0, P[ps + g := L], TakeTile(H, Index(L)), M', G1)
  {
    var P' := P[ps + g := L];
    var H' := TakeTile(H, Index(L));
    FillGapNearest(line, ps, P, G, g, L, G1);
    FilledBagAdd(line, P, P', ps, G, G1, ps + g, 0, |P|);
    forall c | 0 <= c < Alphabet
      ensures hand0[c] == H'[c] + FilledBag(line, P', ps, G1, 0, |P'|)[Chr(c)]
    {
      if c == Index(L) {
        assert Chr(c) == L;
      } else {
        assert Chr(c) != L;
      }
    }
  }

  /** Cutting the pattern just before the nearest pending positive gap (or
      at its end) and keeping only the negative gaps keeps the invariant. */
  lemma Cut(line: seq<char>, ps: int, hand0: seq<nat>, P: seq<char>, H: seq<nat>, M: Mask, G: seq<int>, e: int, G2: seq<int>)
    requires AttemptInv(line, ps, hand0, P, H, M, G)
    requires ps < e <= |P| && (e == |P| || e - ps in G)
    requires forall g :: g in G && g > 0 ==> ps + g >= e
    requires Distinct(G2) && SortedByDistance(G2) && forall x :: x in G2 <==> x in G && x < 0
    ensures AttemptInv(line, ps, hand0, P[..e], H, M, G2)
  {
    var P' := P[..e];
    forall k | 0 <= k < e
      ensures FilledAt(line, P, ps, G, k) == FilledAt(line, P', ps, G2, k) &&
        (FilledAt(line, P, ps, G, k) ==> P[k] == P'[k])
    {
    }
    forall k | e <= k < |P|
      ensures !FilledAt(line, P, ps, G, k)
    {
    }
    FilledBagSame(line, P, P', ps, G, G2, 0, e);
    FilledBagSplit(line, P, ps, G, 0, e, |P|);
    FilledBagNone(line, P, ps, G, e, |P|);
  }

  /** The hand of an attempt whose filled cells all lie in a span, where
      they are its only blank cells, has lost exactly the letters the span's
      word puts on blanks. */
  lemma SpanAccounts(line: seq<char>, ps: int, hand0: seq<nat>, P: seq<char>, H: seq<nat>, G: seq<int>, s: int, e: int)
    requires Accounts(line, ps, hand0, P, H, G)
    requires 0 <= s <= e <= |P| <= |line|
    requires forall k :: s <= k < e ==> (line[k] == Blank <==> FilledAt(line, P, ps, G, k))
    requires forall k :: FilledAt(line, P, ps, G, k) ==> s <= k < e
    ensures forall c :: 0 <= c < Alphabet ==> hand0[c] == H[c] + GapLetters(line, P[s..e], s)[Chr(c)]
  {
    SpanLetters(line, P, ps, G, s, e);
    FilledBagSplit(line, P, ps, G, 0, s, |P|);
    FilledBagSplit(line, P, ps, G, s, e, |P|);
    FilledBagNone(line, P, ps, G, 0, s);
    FilledBagNone(line, P, ps, G, e, |P|);
  }

  /** The span [s, e) of a pattern of length n covers the anchor cell and
      the blank cell q, ends at the pattern's end or at a pending gap on
      each side, and holds no pending gap. */
  ghost predicate SpanFits(line: seq<char>, ps: int, n: int, G: seq<int>, s: int, e: int, q: int)
  {
    0 <= s <= ps < e <= n <= |line| &&
    (s == 0 || (s - 1 - ps in G && s - 1 < ps)) &&
    (e == n || (e - ps in G && e > ps)) &&
    (forall g :: g in G && g != 0 ==> !(s <= ps + g < e)) &&
    s <= q < e && line[q] == Blank
  }

  /** The filled cells of an attempt lie between its nearest pending gaps
      on either side. */
  lemma SpanCoversFilled(line: seq<char>, ps: int, P: seq<char>, G: seq<int>, s: int, e: int)
    requires FilledNearest(line, P, ps, G)
    requires 0 <= s <= ps < e <= |P|
    requires e == |P| || (e - ps in G && e > ps)
    requires s == 0 || (s - 1 - ps in G && s - 1 < ps)
    ensures forall k :: FilledAt(line, P, ps, G, k) ==> s <= k < e
  {
  }

  /** A span of an attempt's pattern that covers the anchor cell and a
      blank q, ends at the pattern's end or at a pending gap on each side,
      and holds no pending gap, is a valid match once it is a dictionary
      word. */
  lemma SpanMatch(words: set<string>, line: seq<char>, ps: int, hand0: seq<nat>, P: seq<char>, H: seq<nat>, G: seq<int>, s: int, e: int, q: int)
    requires SpanInv(line, ps, hand0, P, H, G)
    requires forall w :: w in words ==> IsWord(w)
    requires SpanFits(line, ps, |P|, G, s, e, q)
    requires P[s..e] in words
    ensures MatchOk(words, line, ps, hand0, WordMatch(P[s..e], s, H))
  {
    var w := P[s..e];
    assert IsWord(w);
    assert line[ps] != Blank by {
      assert w[ps - s] == P[ps];
    }
    assert s == 0 || line[ps + (s - 1 - ps)] == Blank;
    assert e == |P| || line[ps + (e - ps)] == Blank;
    SpanCoversFilled(line, ps, P, G, s, e);
    SpanAccounts(line, ps, hand0, P, H, G, s, e);
  }

  /** The start of a span: just after the pending gap ng below the anchor,
      or the start of the line when ng is 0. */
  function SpanStart(ps: int, ng: int): int
  {
    if ng != 0 then ps + ng + 1 else 0
  }

  /** The end of a span: just before the pending gap pg above the anchor,
      or the end n of the pattern when pg is 0. */
  function SpanEnd(ps: int, pg: int, n: int): int
  {
    if pg != 0 then ps + pg else n
  }

  /** Where the negative branch cuts its pattern: just before the nearest
      positive gap pg, which stays pending once the negative gap ng is
      filled and lies below every other pending positive gap. */
  lemma CutPending(G: seq<int>, ps: int, n: int, pg: int, ng: int, G1: seq<int>, e: int)
    requires 0 <= ps < n && forall g :: g in G ==> ps + g < n
    requires NearestAbove(G, 0, pg) && ng < 0 && Without(G1, G, ng, false)
    requires e == SpanEnd(ps, pg, n)
    ensures ps < e <= n && (e == n || e - ps in G1)
    ensures forall g :: g in G1 && g > 0 ==> ps + g >= e
  {
    if pg != 0 {
      assert pg in G1 && e - ps == pg;
    }
  }

  /** Cutting the pattern of an attempt whose nearest negative gap ng has
      just been filled keeps the invariant. */
  lemma NegativeCut(line: seq<char>, ps: int, hand0: seq<nat>, P1: seq<char>, H1: seq<nat>, M1: Mask,
                    G: seq<int>, pg: int, ng: int, G1: seq<int>, G2: seq<int>)
    requires 0 <= ps < |P1| && forall g :: g in G ==> ps + g < |P1|
    requires NearestAbove(G, 0, pg) && ng < 0
    requires Without(G1, G, ng, false) && Without(G2, G, ng, true)
    requires Distinct(G2) && SortedByDistance(G2)
    requires AttemptInv(line, ps, hand0, P1, H1, M1, G1)
    ensures ps < SpanEnd(ps, pg, |P1|) <= |P1|
    ensures AttemptInv(line, ps, hand0, P1[..SpanEnd(ps, pg, |P1|)], H1, M1, G2)
  {
    var e := SpanEnd(ps, pg, |P1|);
    CutPending(G, ps, |P1|, pg, ng, G1, e);
    assert forall x :: x in G2 <==> x in G1 && x < 0;
    Cut(line, ps, hand0, P1, H1, M1, G1, e, G2);
  }

  /** The span of the positive branch: after the filled nearest positive gap
      pg, it runs from just after the nearest negative gap ng to just before
      the next positive gap pg2, both of which stay pending. */
  lemma PositiveSpanBounds(G: seq<int>, ps: int, n: int, pg: int, ng: int, pg2: int, G1: seq<int>, s: int, e: int)
    requires 0 <= ps < n && forall g :: g in G ==> 0 <= ps + g < n
    requires NearestAbove(G, 0, pg) && pg != 0 && NearestBelow(G, 0, ng) && NearestAbove(G, pg, pg2)
    requires Without(G1, G, pg, false)
    requires s == SpanStart(ps, ng) && e == SpanEnd(ps, pg2, n)
    ensures 0 <= s <= ps < ps + pg < e <= n
    ensures s == 0 || (s - 1 - ps in G1 && s - 1 < ps)
    ensures e == n || (e - ps in G1 && e > ps)
  {
    if ng != 0 {
      assert ng in G1 && s - 1 - ps == ng;
    }
    if pg2 != 0 {
      assert pg2 in G1 && e - ps == pg2;
    }
  }

  /** No pending gap of the positive branch's child lies inside its span. */
  lemma PositiveSpanClear(G: seq<int>, ps: int, n: int, pg: int, ng: int, pg2: int, G1: seq<int>, s: int, e: int)
    requires NearestAbove(G, 0, pg) && pg != 0 && NearestBelow(G, 0, ng) && NearestAbove(G, pg, pg2)
    requires Without(G1, G, pg, false)
    requires s == SpanStart(ps, ng) && e == SpanEnd(ps, pg2, n)
    ensures forall g :: g in G1 && g != 0 ==> !(s <= ps + g < e)
  {
    forall g | g in G1 && g != 0
      ensures !(s <= ps + g < e)
    {
      if g < 0 {
        assert ng != 0 && g <= ng;
      } else {
        assert g > pg;
        assert pg2 != 0 && pg2 <= g;
      }
    }
  }

  /** The span of the negative branch: after the filled nearest negative gap
      ng, it runs from just after the next negative gap ng2, which stays
      pending, to where the pattern is cut. */
  lemma NegativeSpanBounds(G: seq<int>, ps: int, n: int, ng: int, ng2: int, pg: int, G2: seq<int>, s: int, e: int)
    requires 0 <= ps < n && forall g :: g in G ==> 0 <= ps + g < n
    requires NearestBelow(G, 0, ng) && ng != 0 && NearestBelow(G, ng, ng2) && NearestAbove(G, 0, pg)
    requires Without(G2, G, ng, true)
    requires s == SpanStart(ps, ng2) && e == SpanEnd(ps, pg, n)
    ensures 0 <= s <= ps + ng < ps < e <= n
    ensures s == 0 || (s - 1 - ps in G2 && s - 1 < ps)
  {
    if ng2 != 0 {
      assert ng2 in G2 && s - 1 - ps == ng2;
    }
  }

  /** No pending gap of the negative branch's child lies inside its span. */
  lemma NegativeSpanClear(G: seq<int>, ps: int, ng: int, ng2: int, G2: seq<int>, s: int, e: int)
    requires NearestBelow(G, 0, ng) && ng != 0 && NearestBelow(G, ng, ng2)
    requires Without(G2, G, ng, true)
    requires s == SpanStart(ps, ng2)
    ensures forall g :: g in G2 && g != 0 ==> !(s <= ps + g < e)
  {
    forall g | g in G2 && g != 0
      ensures !(s <= ps + g < e)
    {
      assert g in G && g < ng;
      assert ng2 != 0 && g <= ng2;
    }
  }

  lemma GapBlank(line: seq<char>, ps: int, n: int, G: seq<int>, g: int)
    requires n <= |line| && forall g' :: g' in G ==> 0 <= ps + g' < n && line[ps + g'] == Blank
    requires g in G
    ensures 0 <= ps + g < |line| && line[ps + g] == Blank
  {
  }

  /** The span of the positive branch fits its child. */
  lemma PositiveSpanFits(line: seq<char>, G: seq<int>, ps: int, n: int, pg: int, ng: int, pg2: int, G1: seq<int>)
    requires 0 <= ps < n <= |line|
    requires forall g :: g in G ==> 0 <= ps + g < n && line[ps + g] == Blank
    requires NearestAbove(G, 0, pg) && pg != 0 && NearestBelow(G, 0, ng) && NearestAbove(G, pg, pg2)
    requires Without(G1, G, pg, false)
    ensures SpanFits(line, ps, n, G1, SpanStart(ps, ng), SpanEnd(ps, pg2, n), ps + pg)
  {
    var s, e := SpanStart(ps, ng), SpanEnd(ps, pg2, n);
    PositiveSpanBounds(G, ps, n, pg, ng, pg2, G1, s, e);
    PositiveSpanClear(G, ps, n, pg, ng, pg2, G1, s, e);
    GapBlank(line, ps, n, G, pg);
  }

  /** The span of the negative branch fits its child. */
  lemma NegativeSpanFits(line: seq<char>, G: seq<int>, ps: int, n: int, ng: int, ng2: int, pg: int, G2: seq<int>)
    requires 0 <= ps < n <= |line|
    requires forall g :: g in G ==> 0 <= ps + g < n && line[ps + g] == Blank
    requires NearestBelow(G, 0, ng) && ng != 0 && NearestBelow(G, ng, ng2) && NearestAbove(G, 0, pg)
    requires Without(G2, G, ng, true)
    ensures SpanEnd(ps, pg, n) <= n
    ensures SpanFits(line, ps, SpanEnd(ps, pg, n), G2, SpanStart(ps, ng2), SpanEnd(ps, pg, n), ps + ng)
  {
    var s, e := SpanStart(ps, ng2), SpanEnd(ps, pg, n);
    NegativeSpanBounds(G, ps, n, ng, ng2, pg, G2, s, e);
    NegativeSpanClear(G, ps, ng, ng2, G2, s, e);
    GapBlank(line, ps, n, G, ng);
  }

  /** A word the positive branch records is a valid match. P1 is the child
      the branch builds after filling the nearest positive gap pg of the
      gaps G with a letter, H1 its hand and G1 its pending gaps; the word is
      the child's span between the nearest negative gap ng and the next
      positive gap pg2. */
  lemma PositiveMatch(words: set<string>, line: seq<char>, ps: int, hand0: seq<nat>, G: seq<int>, pg: int, ng: int, pg2: int,
                      P1: seq<char>, H1: seq<nat>, G1: seq<int>)
    requires forall w :: w in words ==> IsWord(w)
    requires 0 <= ps < |P1| <= |line|
    requires forall g :: g in G ==> 0 <= ps + g < |P1| && line[ps + g] == Blank
    requires NearestAbove(G, 0, pg) && pg != 0 && NearestBelow(G, 0, ng) && NearestAbove(G, pg, pg2)
    requires Without(G1, G, pg, false)
    requires SpanInv(line, ps, hand0, P1, H1, G1)
    ensures 0 <= SpanStart(ps, ng) <= ps < SpanEnd(ps, pg2, |P1|) <= |P1|
    ensures var s, e := SpanStart(ps, ng), SpanEnd(ps, pg2, |P1|);
      P1[s..e] in words ==> MatchOk(words, line, ps, hand0, WordMatch(P1[s..e], s, H1))
  {
    var s, e := SpanStart(ps, ng), SpanEnd(ps, pg2, |P1|);
    PositiveSpanFits(line, G, ps, |P1|, pg, ng, pg2, G1);
    if P1[s..e] in words {
      SpanMatch(words, line, ps, hand0, P1, H1, G1, s, e, ps + pg);
    }
  }

  /** A word the negative branch records is a valid match. The branch fills
      the nearest negative gap ng of the gaps G of a pattern of length n with
      a letter and builds the child P2, that pattern cut before the nearest
      positive gap pg, with hand H2 and the other negative gaps G2 pending;
      the word is the child from just after the next negative gap ng2. */
  lemma NegativeMatch(words: set<string>, line: seq<char>, ps: int, hand0: seq<nat>, G: seq<int>, ng: int, ng2: int, pg: int, n: int,
                      P2: seq<char>, H2: seq<nat>, G2: seq<int>)
    requires forall w :: w in words ==> IsWord(w)
    requires 0 <= ps < n <= |line|
    requires forall g :: g in G ==> 0 <= ps + g < n && line[ps + g] == Blank
    requires NearestBelow(G, 0, ng) && ng != 0 && NearestBelow(G, ng, ng2) && NearestAbove(G, 0, pg)
    requires Without(G2, G, ng, true)
    requires |P2| == SpanEnd(ps, pg, n)
    requires SpanInv(line, ps, hand0, P2, H2, G2)
    ensures 0 <= SpanStart(ps, ng2) <= ps < |P2|
    ensures var s := SpanStart(ps, ng2);
      P2[s..] in words ==> MatchOk(words, line, ps, hand0, WordMatch(P2[s..], s, H2))
  {
    var s, e := SpanStart(ps, ng2), SpanEnd(ps, pg, n);
    NegativeSpanFits(line, G, ps, n, ng, ng2, pg, G2);
    if P2[s..] in words {
      assert P2[s..] == P2[s..e];
      SpanMatch(words, line, ps, hand0, P2, H2, G2, s, e, ps + ng);
    }
  }

  /** The positive branch for letter i: writing it into the nearest positive
      gap pg keeps the invariant of the attempt (the gap filled, a tile of
      letter i spent, pg no longer pending), and the span around pg is a
      match when it is a word. The written pattern with the attempt's own
      hand, mask and gaps still meets the invariant. */
  lemma PositiveOutcome(words: set<string>, line: seq<char>, ps: int, hand0: seq<nat>, P: seq<char>, H: seq<nat>, M: Mask,
                        G: seq<int>, i: int, pg: int, ng: int, pg2: int, G1: seq<int>)
    requires forall w :: w in words ==> IsWord(w)
    requires AttemptInv(line, ps, hand0, P, H, M, G)
    requires 0 <= i < Alphabet && i in M
    requires NearestAbove(G, 0, pg) && pg != 0 && NearestBelow(G, 0, ng) && NearestAbove(G, pg, pg2)
    requires Without(G1, G, pg, false) && Distinct(G1) && SortedByDistance(G1)
    ensures 0 <= SpanStart(ps, ng) <= ps < SpanEnd(ps, pg2, |P|) <= |P|
    ensures AttemptInv(line, ps, hand0, P[ps + pg := Chr(i)], TakeTile(H, i),
                       if TakeTile(H, i)[i] == 0 then M - {i} else M, G1)
    ensures P[ps + pg := Chr(i)][SpanStart(ps, ng)..SpanEnd(ps, pg2, |P|)] in words ==>
      MatchOk(words, line, ps, hand0, WordMatch(P[ps + pg := Chr(i)][SpanStart(ps, ng)..SpanEnd(ps, pg2, |P|)], SpanStart(ps, ng), TakeTile(H, i)))
    ensures AttemptInv(line, ps, hand0, P[ps + pg := Chr(i)], H, M, G)
  {
    assert Index(Chr(i)) == i;
    AboveIsNearestGap(G, pg);
    FillGap(line, ps, hand0, P, H, M, G, pg, Chr(i), if TakeTile(H, i)[i] == 0 then M - {i} else M, G1);
    PositiveMatch(words, line, ps, hand0, G, pg, ng, pg2, P[ps + pg := Chr(i)], TakeTile(H, i), G1);
    WriteGap(line, ps, hand0, P, H, M, G, pg, Chr(i));
  }

  /** The negative branch for letter i: writing it into the nearest negative
      gap ng and cutting the pattern before the nearest positive gap pg
      keeps the invariant with only the other negative gaps pending, and
      the cut pattern from just after the next negative gap ng2 is a match
      when it is a word. The written pattern with the attempt's own hand,
      mask and gaps still meets the invariant. */
  lemma NegativeOutcome(words: set<string>, line: seq<char>, ps: int, hand0: seq<nat>, P: seq<char>, H: seq<nat>, M: Mask,
                        G: seq<int>, i: int, ng: int, ng2: int, pg: int, G1: seq<int>, G2: seq<int>)
    requires forall w :: w in words ==> IsWord(w)
    requires AttemptInv(line, ps, hand0, P, H, M, G)
    requires 0 <= i < Alphabet && i in M
    requires NearestBelow(G, 0, ng) && ng != 0 && NearestBelow(G, ng, ng2) && NearestAbove(G, 0, pg)
    requires Without(G1, G, ng, false) && Distinct(G1) && SortedByDistance(G1)
    requires Without(G2, G, ng, true) && Distinct(G2) && SortedByDistance(G2)
    ensures 0 <= SpanStart(ps, ng2) <= ps < SpanEnd(ps, pg, |P|) <= |P|
    ensures AttemptInv(line, ps, hand0, P[ps + ng := Chr(i)][..SpanEnd(ps, pg, |P|)], TakeTile(H, i),
                       if TakeTile(H, i)[i] == 0 then M - {i} else M, G2)
    ensures P[ps + ng := Chr(i)][SpanStart(ps, ng2)..SpanEnd(ps, pg, |P|)] in words ==>
      MatchOk(words, line, ps, hand0, WordMatch(P[ps + ng := Chr(i)][SpanStart(ps, ng2)..SpanEnd(ps, pg, |P|)], SpanStart(ps, ng2), TakeTile(H, i)))
    ensures AttemptInv(line, ps, hand0, P[ps + ng := Chr(i)], H, M, G)
  {
    assert Index(Chr(i)) == i;
    BelowIsNearestGap(G, ng);
    FillGap(line, ps, hand0, P, H, M, G, ng, Chr(i), if TakeTile(H, i)[i] == 0 then M - {i} else M, G1);
    NegativeCut(line, ps, hand0, P[ps + ng := Chr(i)], TakeTile(H, i), if TakeTile(H, i)[i] == 0 then M - {i} else M, G, pg, ng, G1, G2);
    NegativeMatch(words, line, ps, hand0, G, ng, ng2, pg, |P|, P[ps + ng := Chr(i)][..SpanEnd(ps, pg, |P|)], TakeTile(H, i), G2);
    assert P[ps + ng := Chr(i)][..SpanEnd(ps, pg, |P|)][SpanStart(ps, ng2)..] == P[ps + ng := Chr(i)][SpanStart(ps, ng2)..SpanEnd(ps, pg, |P|)];
    WriteGap(line, ps, hand0, P, H, M, G, ng, Chr(i));
  }
}
