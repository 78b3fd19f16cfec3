/** The dictionary index of the solver (`Solver.Words` and
    `Solver.ContainsIndex`): the word set, and for every substring of a word
    the mask of the letters of all words containing it. The matcher prunes
    its search with these masks. */
module Dictionary {
  import opened Common

  predicate AllWords(ws: set<string>) { forall w :: w in ws ==> IsWord(w) }

  /** The words of a word list: `new HashSet<string>(wordList)`. */
  function ListWords(wordList: seq<string>): (ws: set<string>)
    ensures forall w :: w in ws <==> exists k :: 0 <= k < |wordList| && wordList[k] == w
  {
    set k | 0 <= k < |wordList| :: wordList[k]
  }

  /** `w.Substring(j, i)`: the i letters of w from index j. */
  function Sub(w: string, j: int, i: int): (k: string)
    requires 0 <= j && 0 <= i && j + i <= |w|
    ensures |k| == i
  {
    w[j..j + i]
  }

  /** The non-empty substrings of a word. */
  function Substrings(w: string): (r: set<string>)
    ensures forall j, i :: 0 <= j && 1 <= i && j + i <= |w| ==> Sub(w, j, i) in r
    ensures forall k :: k in r ==> 1 <= |k| <= |w|
  {
    set j, i | 0 <= j < |w| && 1 <= i <= |w| - j :: Sub(w, j, i)
  }

  /** The substrings the index loops of `SetDictionary` have visited before
      reaching length i and start j: all shorter ones, and those of length i
      starting before j. */
  function SubstringsBefore(w: string, i: int, j: int): set<string>
  {
    set j', i' | 0 <= j' < |w| && 1 <= i' <= |w| - j' && (i' < i || (i' == i && j' < j)) :: Sub(w, j', i')
  }

  /** Every key of the index: the substrings of every word. */
  function Keys(ws: set<string>): set<string>
  {
    set w, k | w in ws && k in Substrings(w) :: k
  }

  /** The mask of a key: the letters of every word containing it. */
  function MaskOf(ws: set<string>, key: string): Mask
    requires AllWords(ws)
  {
    set w, c | w in ws && key in Substrings(w) && c in LetterMask(w) :: c
  }

  /** The index `SetDictionary` builds for the word set ws. */
  function IndexOver(ws: set<string>): map<string, Mask>
    requires AllWords(ws)
  {
    map k | k in Keys(ws) :: MaskOf(ws, k)
  }

  /** The index after adding the letters `letters` of a word under each of
      the keys `keys`, creating the keys that are missing. */
  function AddWord(idx: map<string, Mask>, keys: set<string>, letters: Mask): map<string, Mask>
  {
    map k | k in idx.Keys + keys :: (if k in idx then idx[k] else {}) + (if k in keys then letters else {})
  }

  /** The index holds every substring of every word, and the mask of each
      has the bit of every letter of that word set. */
  lemma IndexCoversSubstrings(ws: set<string>, w: string, j: int, i: int)
    requires AllWords(ws) && w in ws
    requires 0 <= j && 1 <= i && j + i <= |w|
    ensures Sub(w, j, i) in IndexOver(ws)
    ensures LetterMask(w) <= IndexOver(ws)[Sub(w, j, i)]
  {
    var key := Sub(w, j, i);
    assert key in Substrings(w);
    assert key in Keys(ws);
    forall c | c in LetterMask(w)
      ensures c in MaskOf(ws, key)
    {
    }
  }

  /** The index holds nothing else: a key is a substring of some word, and
      a letter of its mask is a letter of some word containing the key. So
      when a letter is missing from the mask of a key, no dictionary word
      holding that key holds the letter, which is what makes pruning with
      the masks safe. */
  lemma IndexExact(ws: set<string>, key: string, c: int)
    requires AllWords(ws) && key in IndexOver(ws)
    ensures exists w :: w in ws && key in Substrings(w)
    ensures c in IndexOver(ws)[key] <==> exists w :: w in ws && key in Substrings(w) && c in LetterMask(w)
  {
    if c in IndexOver(ws)[key] {
      var w, c' :| w in ws && key in Substrings(w) && c' in LetterMask(w) && c' == c;
    }
  }

  lemma AddWordEmpty(idx: map<string, Mask>, letters: Mask)
    ensures AddWord(idx, {}, letters) == idx
  {
    assert AddWord(idx, {}, letters).Keys == idx.Keys;
    forall k | k in idx
      ensures AddWord(idx, {}, letters)[k] == idx[k]
    {
    }
  }

  /** One step of the index loops: adding the letters under one more key. */
  lemma AddWordKey(idx: map<string, Mask>, keys: set<string>, letters: Mask, key: string)
    ensures var before := AddWord(idx, keys, letters);
      before[key := (if key in before then before[key] else {}) + letters] == AddWord(idx, keys + {key}, letters)
  {
    var before := AddWord(idx, keys, letters);
    var left := before[key := (if key in before then before[key] else {}) + letters];
    var right := AddWord(idx, keys + {key}, letters);
    assert left.Keys == right.Keys;
    forall k | k in left
      ensures left[k] == right[k]
    {
    }
  }

  lemma KeysAdd(ws: set<string>, w: string)
    ensures Keys(ws + {w}) == Keys(ws) + Substrings(w)
  {
    forall k | k in Keys(ws + {w})
      ensures k in Keys(ws) + Substrings(w)
    {
      var w', k' :| w' in ws + {w} && k' in Substrings(w') && k' == k;
      if w' != w {
        assert k in Keys(ws);
      }
    }
  }

  lemma MaskOfAdd(ws: set<string>, w: string, k: string)
    requires AllWords(ws) && IsWord(w)
    ensures MaskOf(ws + {w}, k) == MaskOf(ws, k) + (if k in Substrings(w) then LetterMask(w) else {})
  {
    forall c | c in MaskOf(ws + {w}, k)
      ensures c in MaskOf(ws, k) + (if k in Substrings(w) then LetterMask(w) else {})
    {
      var w', c' :| w' in ws + {w} && k in Substrings(w') && c' in LetterMask(w') && c' == c;
      if w' != w {
        assert c in MaskOf(ws, k);
      }
    }
  }

  /** Only keys hold letters. */
  lemma MaskOfKey(ws: set<string>, k: string)
    requires AllWords(ws)
    ensures MaskOf(ws, k) != {} ==> k in Keys(ws)
  {
    if MaskOf(ws, k) != {} {
      var c :| c in MaskOf(ws, k);
      var w, c' :| w in ws && k in Substrings(w) && c' in LetterMask(w) && c' == c;
      assert k in Keys(ws);
    }
  }

  /** Adding the letters of a word under all of its substrings is adding the
      word to the dictionary. */
  lemma AddWordIndex(ws: set<string>, w: string)
    requires AllWords(ws) && IsWord(w)
    ensures AddWord(IndexOver(ws), Substrings(w), LetterMask(w)) == IndexOver(ws + {w})
  {
    var idx := IndexOver(ws);
    var left := AddWord(idx, Substrings(w), LetterMask(w));
    var right := IndexOver(ws + {w});
    KeysAdd(ws, w);
    assert idx.Keys == Keys(ws);
    assert left.Keys == right.Keys;
    forall k | k in left
      ensures left[k] == right[k]
    {
      MaskOfAdd(ws, w, k);
      MaskOfKey(ws, k);
    }
  }

  /** One step of the loop over the starts: adding the substring at `j`
      extends the keys already added by that substring. */
  lemma AddSubstring(idx: map<string, Mask>, w: string, i: int, j: int)
    requires IsWord(w) && 0 <= j && 1 <= i && j + i <= |w|
    ensures var before := AddWord(idx, SubstringsBefore(w, i, j), LetterMask(w));
      before[Sub(w, j, i) := (if Sub(w, j, i) in before then before[Sub(w, j, i)] else {}) + LetterMask(w)]
      == AddWord(idx, SubstringsBefore(w, i, j + 1), LetterMask(w))
  {
    AddWordKey(idx, SubstringsBefore(w, i, j), LetterMask(w), Sub(w, j, i));
    SubstringsBeforeStep(w, i, j);
  }

  lemma SubstringsBeforeStart(w: string, i: int)
    ensures SubstringsBefore(w, i + 1, 0) == SubstringsBefore(w, i, |w| - i + 1)
  {
  }

  lemma SubstringsBeforeStep(w: string, i: int, j: int)
    requires 0 <= j && 1 <= i && j + i <= |w|
    ensures SubstringsBefore(w, i, j + 1) == SubstringsBefore(w, i, j) + {Sub(w, j, i)}
  {
  }

  /** The loops over the lengths i and starts j visit every substring. */
  lemma SubstringsBeforeAll(w: string)
    ensures SubstringsBefore(w, |w| + 1, 0) == Substrings(w)
  {
  }

  // -------------------------------------------------------- progress report

  /** Whether `SetDictionary` reports progress after the word numbered
      `progress` of a dictionary of `count` words, as written:
      `progress % (count / 100) == 0`. None stands for the division by zero
      that a dictionary of fewer than 100 words causes. */
  function ProgressDue(progress: int, count: int): (r: Option<bool>)
    ensures r.None? <==> count / 100 == 0
  {
    if count / 100 == 0 then None else Some(progress % (count / 100) == 0)
  }

  /** With fewer than 100 words the first report already divides by zero. */
  lemma ProgressDividesByZero(count: int)
    requires 0 < count < 100
    ensures ProgressDue(1, count) == None
  {
  }

  /** The step between two reports: one percent of the words, and at least
      one word. */
  function ProgressStep(count: int): (s: int)
    ensures 1 <= s && (count >= 100 ==> s == count / 100)
  {
    Max(1, count / 100)
  }

  /** The intended report: every `ProgressStep(count)` words. */
  function ProgressDueFixed(progress: int, count: int): bool
  {
    progress % ProgressStep(count) == 0
  }

  /** The intended report is always defined, agrees with the written one
      whenever that one is defined, and first fires at the first step. */
  lemma ProgressDueFixedAgrees(progress: int, count: nat)
    ensures ProgressDue(progress, count).Some? ==> ProgressDue(progress, count).value == ProgressDueFixed(progress, count)
    ensures ProgressDueFixed(ProgressStep(count), count)
    ensures 0 < progress < ProgressStep(count) ==> !ProgressDueFixed(progress, count)
  {
    var step := ProgressStep(count);
    assert step % step == 0;
    if 0 < progress < step {
      assert progress % step == progress;
    }
  }
}
