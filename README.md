# BabbleSolver move search, modelled in Dafny

This project models the move-search engine of BabbleSolver, a solver for a
tile-placement word game, as written in `Solver.cs`. The game has these parts:

- **The board.** It is two grids of equal size: a grid of tiles (lower-case
  letters, with `_` for an empty cell) and a grid of owner codes. Code 0 is
  nobody, 1 is the current player and 2 or more is another player.
- **The anchor** (`PlayerPosition`). It is the word the current player placed
  last.
- **A move.** It lays a dictionary word along the anchor's line or across one of
  its cells, filling empty cells with tiles from the player's hand.
- **Cross words.** Every word the move forms across its own direction must be a
  dictionary word.
- **Kills.** A move kills when it lands on, or touches across its direction,
  a cell another player owns.
- **Bombs.** A bomb clears the unowned cells in a rectangle around the anchor.
- **The search.** It chains moves depth first until the hand is used up or a
  depth limit is reached.

The modules follow the source's structure:

| module | file | models |
|---|---|---|
| `Common` | common.dfy | letters, letter masks (a `set<int>` of bit positions), hands as per-letter counts, grid index arithmetic |
| `Dictionary` | dictionary.dfy | the word set and the substring index that `SetDictionary` builds, specified as functions of the word set |
| `Boards` | boards.dfy | the `Board` and `WordPosition` values, `Bomb`, `Load` (on the lines of the file) and `FormatHandBitmask` |
| `Moves` | moves.dfy | the `Move` value, `HandAfterMoveLength` and `ToString` |
| `Patterns` | patterns.dfy | the specification of `MatchPattern`: gaps nearest first, the invariant of its attempts, and what every match satisfies |
| `Crossings` | crossings.dfy | the specification of `PerpendicularMovesValid`: the word across each letter, its verdict and the kill flag, scanned in order with early exit |
| `Plays` | plays.dfy | the board after a word move, candidate and legal moves, and the replay of a chain of moves from the search's start |
| `Solving` | solver.dfy | the `Solver` class (fields `Words` and `ContainsIndex`) with the imperative `SetDictionary`, `MatchPattern`, `PerpendicularMovesValid` and `GetMoves`, each proved against the specifications above |

How the imperative parts are modelled:

- `MatchPattern` keeps its explicit stack of attempts. Each attempt's pattern is
  a fresh array, and every letter of both branches writes into that array in
  place (Solver.cs:341, 380). The negative branch's child takes the copy that is
  cut at the end of its span (404).
- `GetMoves` keeps its explicit stack of states. It is proved to terminate with a
  weight over the stack, in which a state with t tiles and b bombs weighs K^(t+b).
- `PerpendicularMovesValid` fills and reverses the shared buffer in place.
- `SetDictionary` updates the `ContainsIndex` map in its three nested loops.
- `Bomb` and `Load` write into arrays and return board values.

## Model

| member | source | states |
|---|---|---|
| `Solving.Solver.constructor` | Solver.cs:19-22 | The new solver's word set is the set of the list, and its index is the substring index of that set. |
| `Solving.Solver.SetDictionary` | Solver.cs:432-459 | `Words` becomes the set of the list. `ContainsIndex` becomes `IndexOver(Words)`: every substring of every word is a key, and its mask is the union of the letters of the words containing it. |
| `Solving.Solver.IndexWord` | Solver.cs:437-453 | Indexing one word adds that word's letter mask to the entry of each of its substrings (creating missing entries), and leaves the word set alone. |
| `Solving.Solver.IndexLength` | Solver.cs:441-452 | The loop over the starts of the substrings of one length adds the word's letters to exactly those substrings' entries. |
| `Solving.Solver.AddLetters` | Solver.cs:443-451 | One key is created with an empty mask when missing, and then gets the letters of the word ORed in. No other key changes. |
| `Dictionary.AddWordIndex` | Solver.cs:437-452 | Adding a word's substrings with its letters to the index of a word set gives the index of the set with that word. This is the invariant of the word loop. |
| `Dictionary.AddSubstring` | Solver.cs:441-451 | One substring step of the loop extends the partial index by exactly that substring. |
| `Dictionary.IndexCoversSubstrings` | Solver.cs:439-451 | Every substring of every word is a key of the index, and its mask has every letter of that word. |
| `Dictionary.IndexExact` | Solver.cs:437-452 | Every key is a substring of some word, and a letter is in a key's mask exactly when some word containing the key has that letter. |
| `Dictionary.SubstringsBeforeAll` | Solver.cs:439-441 | The loops over every length i from 1 to the word's length, and every start j with j + i within the word, visit exactly the substrings of the word. |
| `Dictionary.ListWords` | Solver.cs:434 | The word set holds exactly the words that occur in the list. |
| `Common.LetterMask` | Solver.cs:447-450 | Bit c of a word's mask is set exactly when letter c occurs in the word. |
| `Dictionary.ProgressDue` | Solver.cs:454 | The progress test, as written, has no result (it divides by zero) exactly when `count / 100` is 0, that is with fewer than 100 words. |
| `Dictionary.ProgressDividesByZero` | Solver.cs:454 | With fewer than 100 words, the first word already hits the division by zero. |
| `Dictionary.ProgressDueFixedAgrees` | Solver.cs:454 | A test that divides by at least 1 agrees with the written one wherever that one is defined. It reports at its first step and not before. |
| `Boards.Bomb` | Solver.cs:536-566 | The loops over the blast rectangle return the board `Bombed(b)`. |
| `Boards.BombedCell` | Solver.cs:542-556 | A cell of the bombed board is blank exactly when it lies in the half-open rectangle [max(0,X-3), min(W,X+4+(H?L-1:0))) x [max(0,Y-2), min(Ht,Y+4+(H?0:L-1))) and no one owns it. Otherwise the tile is unchanged, and every owner code is unchanged. |
| `Boards.BombKeepsOwnedTiles` | Solver.cs:551-563 | Owned tiles survive a bomb. The mask, the anchor and the size are unchanged. |
| `Boards.BombIdempotent` | Solver.cs:536-566 | Bombing twice gives the same board as bombing once. |
| `Boards.BombBlastExample` | Solver.cs:542-545 | For a horizontal anchor at (5,5) of length 3, the blast covers x in 2..10 and y in 3..8. The upper bounds are exclusive. |
| `Boards.Load` | Solver.cs:568-603 | Each failure happens exactly in its case: an odd line count, lines of different length, no lines, or a cell that is unreadable (an invalid letter or a non-digit owner, whichever comes first in reading order). On success the board's width is the length of the first line, its height is half the number of lines, each cell's lower-cased letter and owner digit, and the anchor `AnchorFrom` describes. |
| `Boards.LoadColumn` | Solver.cs:586-600 | One column of the scan either stores every cell and advances the anchor, or reports the first unreadable cell with the right error. |
| `Boards.LoadedAll` | Solver.cs:586-602 | Once every column is stored, the board is the one the lines describe. |
| `Boards.AnchorAfterMeetsSpec` | Solver.cs:579-599 | The anchor the scan computes has these properties: its length is the number of owned cells; x and y are the least x and y over them (or width and height when there are none); it is horizontal exactly when the last owned cell read lies on its row. |
| `Boards.AnchorLength` | Solver.cs:597 | The anchor's length counts the owned cells read so far. |
| `Boards.AnchorScan` | Solver.cs:593-599 | After any prefix of the scan, the anchor bounds every owned cell read, and owned cells witness its x, its y and its orientation. |
| `Boards.AnchorScanCell` | Solver.cs:593-599 | One more cell of the scan keeps those witnesses. |
| `Boards.SingleRowAnchorIsHorizontal` | Solver.cs:593-599 | When all owned cells lie in one row, the anchor is horizontal on that row. |
| `Boards.ColumnAnchorIsVertical` | Solver.cs:593-599 | Two or more owned cells stacked in one column give a vertical anchor at the topmost of them. |
| `Boards.MaskLettersExact` | Solver.cs:518-533 | The letters shown for a mask are exactly its set bits below 26, in alphabetical order and each once. Reading them back gives the mask. |
| `Boards.FullMaskShowsAllLetters` | Solver.cs:520-532 | A mask with all 26 bits needs 26 letters. |
| `Boards.FormatHandBitmask` | Solver.cs:518-533 | As written, with the 25-slot buffer: the result is an index fault exactly when more than 25 letters are shown, and otherwise the letters of the mask. |
| `Boards.FormatHandBitmaskFixed` | Solver.cs:518-533 | With a 26-slot buffer, the result is always the letters of the mask. |
| `Moves.HandAfterMoveLength` | Solver.cs:627 | The result is -1 exactly for a move without a hand, and otherwise lies between 0 and the number of letter slots. |
| `Moves.CountPositiveZero` | Solver.cs:627 | No letter is left exactly when no tile is left. |
| `Moves.HandAfterMoveLengthEmpty` | Solver.cs:627 | For a move with a hand, `HandAfterMoveLength == 0` exactly when the hand is empty. This is the search's "hand used up" test at line 198. |
| `Moves.NatToStringValue` | Solver.cs:634 | Reading the decimal rendering of a number gives the number back. |
| `Moves.IntToStringRoundTrip` | Solver.cs:634 | Reading the rendering of an integer, sign included, gives the integer back. |
| `Moves.ParsePieces` | Solver.cs:634 | Arrow, coordinates and word are read back from the pieces of a rendered move. |
| `Moves.ToString` | Solver.cs:631-635 | A move prints as `BOOM` exactly when it is a bomb. A word move's text starts with its arrow and ends with its word. |
| `Moves.ToStringRoundTrip` | Solver.cs:631-635 | The text of a word move, `->(x, y)word` or `\/(x, y)word`, determines its orientation, origin and word. |
| `Patterns.GapOffsets` | Solver.cs:289-296 | The gaps are exactly the offsets from the anchor cell of the blank cells, in increasing order. |
| `Patterns.StaleGapOutsideCopy` | Solver.cs:290-301 | As written, the gap scan of a three-cell buffer `ab_` finds offset 2. That offset lies outside the two-cell copy the matcher fills, where no gap exists. |
| `Patterns.ByDistance` | Solver.cs:297 | Ordering the gaps by distance is a permutation of them. |
| `Patterns.ByDistanceSorted` | Solver.cs:297 | The ordered gaps are sorted by distance, and distinct gaps stay distinct. |
| `Patterns.GapOrder` | Solver.cs:289-297 | The ordered gaps are distinct, nearest first, and exactly the blank cells' offsets. |
| `Patterns.FirstAbove` | Solver.cs:322-323 | `FirstOrDefault(g => g > b)` is 0 or a gap above b. |
| `Patterns.FirstBelow` | Solver.cs:324-325 | `FirstOrDefault(g => g < b)` is 0 or a gap below b. |
| `Patterns.FirstAboveNearest` | Solver.cs:322-323 | In a list sorted by distance, the first gap above b is the nearest one above b, or 0 when there is none. |
| `Patterns.FirstBelowNearest` | Solver.cs:324-325 | The same for the first gap below b. |
| `Patterns.KeepGaps` | Solver.cs:372-413 | The filtered gaps (line 372, and 411-413 in the negative branch) are exactly the others (only the negative others in the negative branch). There are fewer of them when the removed gap was pending. |
| `Patterns.KeepGapsSorted` | Solver.cs:372-413 | Filtering keeps the gaps distinct and nearest first. |
| `Patterns.HandMask` | Solver.cs:304-310 | Bit c is set exactly when the hand holds a tile of letter c. |
| `Patterns.InitialAttempt` | Solver.cs:300-318 | The first attempt (the copy of the line, the whole hand, its mask, every gap) satisfies the attempt invariant. |
| `Patterns.FillGap` | Solver.cs:341-350 | In either branch (also 380-389), writing a letter of the mask into the nearest gap, taking its tile and dropping the gap keeps the invariant. The invariant covers: the hand lost exactly the letters written, every filled cell is nearer than every pending gap, and every letter of the mask is still in hand. |
| `Patterns.Cut` | Solver.cs:404-405 | Cutting the pattern just before a pending positive gap, and dropping the positive gaps, keeps the invariant. |
| `Patterns.SpanMatch` | Solver.cs:342-358 | A dictionary word read over a span that covers the anchor and a newly filled gap, and no pending gap, is a valid match with the attempt's hand. |
| `Patterns.MatchConsumesTiles` | Solver.cs:346-358 | Every match takes at least one tile, and never a tile the hand does not have. |
| `Patterns.PositiveMatch` | Solver.cs:339-358 | The span `[start, end)` of the positive branch lies in the pattern and covers the anchor. Its word, when in the dictionary, is a valid match. |
| `Patterns.NegativeMatch` | Solver.cs:378-397 | The same for the negative branch's span. |
| `Patterns.PositiveOutcome` | Solver.cs:339-376 | The positive branch for letter i has three outcomes: its child (pattern with the letter, hand without the tile, narrowed mask, the other gaps) satisfies the invariant; its word is a valid match; the shared pattern still satisfies the popped attempt's invariant. |
| `Patterns.NegativeOutcome` | Solver.cs:378-417 | The same for the negative branch. Its child is cut at the span's end and keeps only the other negative gaps. |
| `Patterns.NegativeCut` | Solver.cs:404-414 | The cut child of the negative branch satisfies the invariant. |
| `Solving.Narrowed` | Solver.cs:349-363 | Narrowing the mask (by the tile taken or by `ContainsIndex`, also 388-402) keeps the attempt invariant. |
| `Solving.ExpansionBound` | Solver.cs:319-421 | One expansion pushes children that together weigh less than the popped attempt (53^k), and the bound on the matches still holds. |
| `Solving.Solver.MatchPattern` | Solver.cs:284-424 | Every match returned is a word of `Words` laid over the line across the anchor cell, filling exactly its blank cells with tiles of the hand, with the hand left after them. The number of matches is bounded. The loop terminates. The caller's array is not written. |
| `Solving.Solver.GapScan` | Solver.cs:289-296 | The scan over the first `length` cells returns their gaps. |
| `Solving.Solver.HandBitmask` | Solver.cs:304-310 | The loop returns the hand's mask. |
| `Solving.Solver.ExpandAttempt` | Solver.cs:321-420 | One popped attempt yields valid matches and children that satisfy the invariant, and together they weigh less than the attempt. |
| `Solving.Solver.TryLetters` | Solver.cs:327-420 | The loop over the 26 letters yields at most 52 valid matches and at most 52 children, each with fewer gaps. An attempt without gaps yields nothing. |
| `Solving.Solver.TryLetter` | Solver.cs:332-419 | One letter yields at most two matches and two children. The shared pattern keeps the popped attempt's invariant. |
| `Solving.Solver.PositiveStep` | Solver.cs:339-376 | The letter is written into the nearest positive gap in place. At most one valid match and one child with fewer gaps result. |
| `Solving.Solver.NegativeStep` | Solver.cs:378-417 | The letter is written into the nearest negative gap in place. At most one valid match and one cut child with fewer gaps result. |
| `Crossings.RunAfter` | Solver.cs:261-267 | The forward run never reaches the last cell, and is empty from the last two cells on. |
| `Crossings.LoneLetter` | Solver.cs:244-267 | A letter with blank neighbours (or edges) across the move forms the one-letter cross word. |
| `Crossings.LonelyMoveValid` | Solver.cs:269-278 | A move none of whose letters has a neighbour across it passes, whatever the dictionary. |
| `Crossings.RunAfterIgnoresLastCell` | Solver.cs:261 | The forward scan never reads the line's last cell: lines that differ only there give the same run. |
| `Crossings.BottomRowIgnored` | Solver.cs:261 | A letter placed just above the bottom row does not see the letter below it. |
| `Crossings.CrossOkBeforeAll` | Solver.cs:240-279 | The scan's verdict over the first n letters holds exactly when each of their cross words has length 1 or is a word. |
| `Crossings.KillScannedExists` | Solver.cs:238-279 | The kill flag after n letters is set exactly when some letter kills while all cross words before it are acceptable. |
| `Crossings.ScanComplete` | Solver.cs:240-281 | A move that passes has every cross word acceptable. It kills exactly when one of its letters kills. |
| `Crossings.ScanStep` | Solver.cs:240-279 | One more letter: its verdict joins the others, and its kill counts only while all verdicts hold. |
| `Crossings.ScanStops` | Solver.cs:273-277 | After the first failed cross word nothing more is looked at: the verdict stays false and the kill flag stays as it was. |
| `Crossings.ScanFinished` | Solver.cs:240-281 | Where the loop ends (at the last letter or after the first failure), its results are those of the whole move. |
| `Crossings.CrossCell` | Solver.cs:246 | The cell the validator reads at offset j across letter i (also at 263) is the cell of the line across the move. |
| `Crossings.RunBeforeStep` | Solver.cs:244-256 | Reading one more letter backwards, and reversing, extends the run before the cell. |
| `Crossings.RunAfterStep` | Solver.cs:261-267 | Reading one more letter forwards extends the run after the cell. |
| `Solving.Solver.PerpendicularMovesValid` | Solver.cs:232-282 | `moveValid` holds exactly when every cross word is acceptable. `kill` is set exactly when, for some letter up to and including the first failing one, its own cell or a non-blank neighbour across the move is owned by another player. |
| `Solving.Solver.ScanLetter` | Solver.cs:240-279 | One turn of the loop advances the verdict and the kill flag by one letter. |
| `Solving.Solver.CheckLetter` | Solver.cs:242-278 | For one letter, the cross word's verdict and the letter's kill are computed. |
| `Solving.ReadCross` | Solver.cs:242-267 | The buffer receives the backward run, the letter and the forward run, lower-cased. The kill is the letter's cell or a non-blank neighbour owned by another player. |
| `Solving.ReadBefore` | Solver.cs:244-256 | The buffer receives the letters before the cell up to a blank or the edge, in line order. The neighbour's kill is reported. |
| `Solving.ReadAfter` | Solver.cs:261-267 | The buffer receives the letters after the cell, up to a blank or the second-to-last cell. Earlier buffer cells are kept. |
| `Solving.ReverseInPlace` | Solver.cs:251-256 | The first n cells are reversed in place. The rest of the buffer is unchanged. |
| `Crossings.Reverse` | Solver.cs:251-256 | Cell k of the reversal is cell n-1-k of the input. |
| `Plays.StampCell` | Solver.cs:172-179 | After stamping the first n letters, those cells hold the move's letters and owner 1. Every other cell is unchanged. |
| `Plays.UnmarkCell` | Solver.cs:182-192 | After unmarking, the first n cells of the previous anchor have owner 0. Every other cell is unchanged. |
| `Plays.AfterMoveCell` | Solver.cs:151-192 | After a word move: each cell of the word holds its letter; the old anchor's cells have owner 0, even where the new word overlaps them; the word's other cells have owner 1; all other cells are unchanged. The anchor is the move's position. |
| `Plays.NextBoard` | Solver.cs:151-192 | Copying the arrays, stamping the word and unmarking the old anchor gives `AfterMove(b, m)`. The parent board is a value and is untouched. |
| `Plays.LegalMoveConsumes` | Solver.cs:346-348 | A legal move (its hand built at 346-348 or 385-387) takes at least one tile and never more tiles of a letter than the hand holds. |
| `Plays.CandidateIgnoresKill` | Solver.cs:138 | Being a candidate does not depend on the kill flag. |
| `Plays.ValidatedCandidate` | Solver.cs:130-141 | A candidate proposed with its kill flag clear that passes validation, flagged with the computed kill, is a legal move; the cross words are those of the move as placed, whatever kill flag it carries. |
| `Plays.ReplayAppend` | Solver.cs:195-197 | Replaying an extended chain replays its last move from where the chain led. |
| `Plays.ReplayBomb` | Solver.cs:208-217 | A bomb appended to a playable chain while bombs are left blasts the board and uses one bomb. |
| `Plays.ReplayWord` | Solver.cs:195-206 | A legal word move appended to a playable chain plays that move. |
| `Plays.WordMovesAppend` | Solver.cs:195-217 | Appending a move adds one word move or one bomb move. |
| `Plays.ReplayBudget` | Solver.cs:38-217 | Along a playable chain, bombs left plus bomb moves equals the initial bomb count. Word moves never exceed the tiles used. |
| `Solving.PlayedState` | Solver.cs:195-206 | Playing a legal move from a stack entry gives a playable chain within the depth limit, with fewer tiles. Below the limit the new entry is well placed. |
| `Solving.BlastedState` | Solver.cs:208-217 | The bombed entry pushed while bombs are left is well placed and smaller. |
| `Solving.PushedOk` | Solver.cs:206-217 | The one or two entries pushed for a child are well placed and smaller than the popped entry. |
| `Solving.BranchBound` | Solver.cs:56-141 | A pass pushes fewer entries than the branching bound. |
| `Solving.PushLighter` | Solver.cs:46-226 | Popping an entry and pushing fewer than K smaller ones makes the stack's weight drop. This gives the search's termination. |
| `Solving.ValidatedExactly` | Solver.cs:130-141 | A move is kept exactly when it is a proposal whose cross words are all acceptable, flagged with its kill. No more moves are kept than proposed. |
| `Solving.ValidatedLast` | Solver.cs:132-140 | The last proposal, when it passes, is appended with its kill flag after the moves kept before it. |
| `Solving.ValidatedSound` | Solver.cs:130-141 | Every kept move is a passing proposal with its kill flag. |
| `Solving.ValidatedComplete` | Solver.cs:130-141 | Every passing proposal is kept. |
| `Solving.ValidatedKeeps` | Solver.cs:136-139 | Proposal i, when it passes, is kept with its computed kill flag. |
| `Solving.ValidatedLegal` | Solver.cs:127-141 | The moves kept from candidates are legal moves. |
| `Solving.HandOf` | Solver.cs:26-30 | Slot c of the hand counts the tiles of letter c, modulo 256 (a byte). |
| `Solving.HandOfTotal` | Solver.cs:26-30 | With fewer than 256 tiles of each letter, the hand holds exactly the string's tiles. |
| `Solving.HandOfAdd` | Solver.cs:29 | One more tile, short of a wrap, adds one to its slot. |
| `Solving.CountLetters` | Solver.cs:26-30 | The counting loop returns `HandOf(hand)`. |
| `Solving.CountStep` | Solver.cs:27-30 | Reading tile i adds one to its letter's count and to no other. |
| `Solving.CopyRow` | Solver.cs:59 | The start of the buffer receives row y of the tiles (also at 112). |
| `Solving.CopyColumn` | Solver.cs:73-76 | The start of the buffer receives column x of the tiles (also at 93-96). |
| `Solving.Solver.MatchLine` | Solver.cs:56-124 | The moves proposed from one line are matches of that line around the anchor's cell. They carry the line's orientation, no kill flag, and their length. Their number is bounded. |
| `Solving.Solver.CandidateMoves` | Solver.cs:51-125 | The proposals of a pass (the anchor's own line, then each line across it) are candidates in the grid, with no kill flag. |
| `Solving.Solver.ValidMoves` | Solver.cs:130-141 | The validation loop returns `Validated(Words, b, moves)`. |
| `Solving.Solver.ChildMoves` | Solver.cs:51-141 | The children of a pass are the validated proposals (`Validated` of candidates in the grid), and each is a legal move of the popped position. |
| `Solving.Solver.PlayChild` | Solver.cs:148-219 | A child's chain is reported exactly when the hand is used up or the depth limit is reached. The chain reported and the entries pushed (the child's position, then its bombed position when bombs are left) are `ChildReported` and `ChildPushed`. They are sound: playable chains, well-placed smaller entries, at most two. |
| `Solving.ChildSound` | Solver.cs:195-217 | Playing a legal move reports only chains that can be played within the depth limit, and pushes at most two entries, each well placed and smaller than the popped one. |
| `Solving.PlayedOutcome` | Solver.cs:195-217 | The outcome of one child is sound given the facts about the entry the move leads to. |
| `Solving.ChildOutcome` | Solver.cs:195-217 | From an entry whose depth counts its word moves, a reported child chain is closed (its last word move empties the hand or reaches the depth limit). No pushed entry's chain is closed. |
| `Solving.ChildrenOutcome` | Solver.cs:146-220 | The same holds for all the children of a pass. |
| `Solving.Solver.PlayChildren` | Solver.cs:146-220 | `finished` and `pushed` are the outcomes of the children in order (`ChildrenReported`, `ChildrenPushed`), at most two entries per child, and they are sound. |
| `Solving.Solver.PlayAll` | Solver.cs:146-225 | The children's outcomes in order, plus the entry's own chain exactly when there is no child. Every reported chain is closed or is that chain. No pushed chain is closed. Fewer than K entries are pushed. |
| `Solving.Solver.Pass` | Solver.cs:46-225 | The pass's children are legal moves. It reports their chains in order and adds its own chain exactly when `children == []`. It pushes their entries. The outcome is sound. |
| `Solving.Solver.GetMoves` | Solver.cs:34-227 | Every reported chain can be played from the start and keeps to the depth limit. It uses no more tiles than the hand holds and no more bombs than given. The ghost trace `passes` records each pass: its popped entry, which is well placed, and its legal children. The chains are exactly `Emitted(passes)`: each pass's children's chains in order, plus the entry's own chain when it has no child. The dead ends are the entries with no child. The popped entries are, with multiplicity, the first entries plus everything pushed, so every pushed entry is popped exactly once. Something is always reported. Every chain is closed by its last word move or is a dead end's chain. The search terminates. |
| `Solving.Solver.GetMovesFromLetters` | Solver.cs:24-32 | The search on the letter counts of the hand string. It carries every guarantee of `GetMoves` from that start: playable chains, exactly the passes' emissions, each pushed entry popped once, a non-empty result, closed or dead-end chains. It also has at most as many word moves as the string has tiles. |
| `Solving.ChildrenEmit` | Solver.cs:146-220 | Every child of a pass reports its chain or pushes an entry, so a pass with children emits something. |
| `Solving.TraceInit` | Solver.cs:36-42 | Before the first pass nothing is popped or reported, and the stack holds exactly the first entries. |
| `Solving.TracedSnoc` | Solver.cs:55-146 | A pass from a well-placed entry with legal children extends the trace. |
| `Solving.TraceSnoc` | Solver.cs:46-225 | Recording one more pass extends the emitted chains, the dead ends, the pushed entries and the popped entries by that pass's own. |
| `Solving.TraceStep` | Solver.cs:46-225 | Popping the top entry, running its pass and recording it keeps the trace invariant. The chains stay the trace's emissions, and popped plus waiting entries stay the first and pushed ones. The stack stays non-empty or the result does. |
| `Solving.TraceDone` | Solver.cs:46-225 | When the stack is empty, the popped entries are exactly the first and pushed ones, and the result is not empty. |
| `Solving.SearchInit` | Solver.cs:36-42 | The first entries (the start with an empty chain, and the start bombed when bombs are given) are well placed and not closed. Nothing is reported yet, so the loop invariant holds. |
| `Solving.SearchPop` | Solver.cs:55 | The popped entry is well placed and not closed. The rest of the stack keeps the invariant. |
| `Solving.SearchStep` | Solver.cs:146-225 | One pass keeps the loop invariant. Its reported chains are closed, or are the popped chain when it has no valid move, and that entry becomes a dead end. Its pushed entries are well placed and not closed. |
| `Solving.SearchBudget` | Solver.cs:34-227 | Every playable reported chain has no more word moves than the hand has tiles, and no more bombs than were given. |
| `Solving.PassOutcome` | Solver.cs:195-225 | A pass reports the chains its children close, plus its own chain exactly when it has no children. It pushes only entries that are not closed, and the whole outcome is sound. |
| `Solving.Solver.PlayNext` | Solver.cs:146-220 | Playing child i after the first i extends the outcomes of the first i children to the first i + 1, and they stay sound. |
| `Solving.Solver.EmitChild` | Solver.cs:150-219 | The board copy with the word stamped and the previous anchor unmasked yields exactly `ChildReported` and `ChildPushed`. A chain is reported exactly when the hand is used up or the depth limit is reached. |
| `Solving.LetterCountsTotal` | Solver.cs:26-30 | The exact letter counts of a hand string add up to its length. |
| `Solving.HandOfBound` | Solver.cs:26-30 | With or without a byte wrap, the hand's slots hold no more tiles than the string has. |
| `Solving.ToMoves` | Solver.cs:61-68 | Each proposed move lies along the given line in the given orientation. It is a word move with no kill flag, its length is its word's, and it gives back exactly its match (word, start and remaining hand); the same `Select` is at 79-86, 99-108 and 115-122. |

## Left out

- `Program.cs` is not part of this model. It is a console loop over files and
  standard input.
- `Solver.PrintBoard` (Solver.cs:461-497), `Board.ToString` (508-516) and the
  progress line of `SetDictionary` (455-457) are console output.
- The progress test itself (454) is modelled separately, in `ProgressDue`.
- The file read at the start of `Board.Load` (570) is replaced by the lines,
  passed as a parameter.
- Unicode behaviour of `char.IsLetter` and `char.ToLower` is out of scope:
  - `Boards.Load` requires ASCII lines;
  - hand strings and dictionary words are lower-case a-z.
- Hand strings with other characters would fault at Solver.cs:29. A tile count
  above 255 wraps (`HandOf` models the wrap).
- Letter masks are modelled as the set of their bit positions rather than as a
  32-bit `int`. Only bits 0 to 25 are ever set, so no overflow is lost.
- `GetMoves` is a `yield` iterator. The model returns all reported chains, in the
  order they are yielded. Laziness and early stopping by the consumer are not
  modelled.
- Arrays are shared between stacked states and moves (`HandAfterMoveBytes`,
  `Tiles`). They are modelled as values: none of them is written after it is
  shared.
- The default `buffer = null` of `PerpendicularMovesValid` (235) is not
  modelled. The only caller passes the search's buffer.
- `Solving.Solver.MatchPattern`: states soundness (every match returned is
  valid) and a bound on the number of matches. It does not state completeness
  (every valid placement is found) or the order of the matches.
- `Solving.Solver.MatchPattern`: requires the anchor cell to lie inside the
  first `length` cells, which every call in `GetMoves` ensures.
- `Solving.Solver.ChildMoves`: states only soundness (every child is legal),
  since the matcher's completeness is not proved.
- `Solving.Solver.CandidateMoves`: states only soundness, for the same reason.
- `Solving.Solver.GetMoves`: which moves a pass finds is stated only for soundness,
  since the matcher's completeness is not proved. Given each pass's children
  (the ghost trace `passes`), what is reported and pushed is stated exactly. The
  trace does not state the stack's last-in, first-out order. It states only that
  every pushed entry is popped exactly once.
- `Solving.Solver.GetMoves`: requires an anchor inside the grid of length at
  least one (`Anchored`). Among the boards `Load` produces, `Anchored` excludes
  only those on which the source faults. `Load` gives a length-0 anchor only when
  no cell is owned, and then X = Width and Y = Height (`AnchorAfterMeetsSpec`),
  so the copy at Solver.cs:59 or Solver.cs:93-96 reads outside the tiles. A board
  built some other way with an in-grid anchor of length 0 is not covered. For
  example, a 2 by 2 board with a vertical anchor at (0,0) of length 0 runs in the
  source without fault. It matches column 0, and the loops at Solver.cs:110 and
  Solver.cs:182 run zero times.
  `Load` can also give an anchor that runs past the grid: on a 3 by 2 board
  whose owned cells are (0,0), (1,0) and (2,1), the scan (Solver.cs:586-598)
  gives a vertical anchor at (0,0) of length 3. `Array.Copy` at Solver.cs:112
  then reads past `Tiles`.
- The matcher's soundness holds whatever the substring index holds: a letter is
  only tried when the hand has it and the index allows it, and every match is
  checked against the word set. `GetMoves` therefore requires only lower-case
  words, not `Valid()`. The constructor and `SetDictionary` establish `Valid()`.
- `Solving.Solver.SetDictionary`: requires lower-case a-z words. Other
  characters would give the source negative or out-of-range powers of two.
- The forward perpendicular scan never reads the last cell of the line
  (Solver.cs:261). This is kept as written and shown by `RunAfterIgnoresLastCell`
  and `BottomRowIgnored`. It may be intended, so it is not listed as a finding.

## Findings

| source | as written | input that shows it | evidently intended | confidence | as-written member | corrected member |
|---|---|---|---|---|---|---|
| Solver.cs:290 | Gaps are collected over `pattern.Length`, the whole shared buffer, while only `length` cells are copied and matched. | On a non-square board the buffer holds stale cells past `length`: buffer `ab_`, `length` 2, anchor 0 gives gap offset 2. The source then throws `IndexOutOfRangeException` at 341 when the stale gap is the nearest positive gap, as here. When it is the second-nearest positive gap and lies past index `length`, the source throws `ArgumentOutOfRangeException` from `new string` at 344. A stale gap exactly at `length` ends the span where no gap would. | Collect the gaps over the first `length` cells. | not executed | `Patterns.StaleGapOutsideCopy` | `Solving.Solver.MatchPattern` |
| Solver.cs:520 | The result buffer of `FormatHandBitmask` has `'z' - 'a'` = 25 slots. | A mask with all 26 letter bits set writes a 26th letter past the end. | A buffer of 26 slots. | not executed | `Boards.FormatHandBitmask` | `Boards.FormatHandBitmaskFixed` |
| Solver.cs:454 | `progress % (int)(Words.Count / 100)` divides by zero with fewer than 100 words. | Any dictionary of 1 to 99 words faults after its first word. | A report step of at least 1. | not executed | `Dictionary.ProgressDividesByZero` | `Dictionary.ProgressDueFixedAgrees` |
