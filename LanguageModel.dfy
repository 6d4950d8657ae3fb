/**
 * The character-level sliding-window language model: training fills a table
 * from each window of `windowLength` characters to the list of characters
 * that followed it, finalisation turns the counts into probabilities, and
 * generation extends a text by sampling from the list of its trailing window.
 *
 * The random generator is not modelled: every draw is a parameter.
 */
module NGram {
  import opened CharLists
  import opened Distribution
  import opened Corpus

  type Table = map<string, seq<CharData>>

  /** CharDataMap.getOrDefault(key, new List()): the key's list, or a list
      with no observations when the key is absent. */
  function Lookup(m: Table, key: string): seq<CharData>
  {
    if key in m then m[key] else []
  }

  /** The trailing `wl` characters of `s`, or all of `s` when it is shorter. */
  function Window(s: string, wl: nat): (w: string)
    ensures |w| == if |s| < wl then |s| else wl
  {
    s[if |s| > wl then |s| - wl else 0..]
  }

  /** The window is the end of the text: the text is what comes before it
      followed by the window. */
  lemma WindowIsSuffix(s: string, wl: nat)
    ensures s == s[..|s| - |Window(s, wl)|] + Window(s, wl)
  {
  }

  /** `m` is the finalised table of everything observed in `corpora`:
      its keys are the windows of length wl that some corpus follows with a
      character, each list is non-empty, distinct and finalised, and its
      counts and total are those of the corpora. */
  ghost predicate TableOf(m: Table, corpora: seq<string>, wl: nat)
  {
    && (forall k :: k in m ==> |k| == wl && m[k] != [] && WellFormed(m[k]) && Finalized(m[k]))
    && (forall k :: k in m <==> TotalWindows(corpora, wl, k) > 0)
    && (forall k, c :: CountOf(Lookup(m, k), c) == TotalOccurrences(corpora, wl, k, c))
    && (forall k :: TotalCount(Lookup(m, k)) == TotalWindows(corpora, wl, k))
  }

  /** Every key has length wl and maps to a non-empty well-formed list. */
  ghost predicate Shaped(m: Table, wl: nat)
  {
    forall k :: k in m ==> |k| == wl && m[k] != [] && WellFormed(m[k])
  }

  /** A trained table is shaped. */
  lemma TableShaped(m: Table, corpora: seq<string>, wl: nat)
    requires TableOf(m, corpora, wl)
    ensures Shaped(m, wl)
  {
  }

  /** The keys of a trained table are exactly the windows of length wl that
      some corpus follows with another character. */
  lemma TableKeys(m: Table, corpora: seq<string>, wl: nat, k: string)
    requires TableOf(m, corpora, wl)
    ensures k in m <==> exists j: nat, i: nat :: j < |corpora| && WindowAt(corpora[j], wl, k, i)
    ensures k in m ==> |k| == wl
  {
    TotalWindowsWitness(corpora, wl, k);
  }

  /** The characters listed under a key are exactly those some corpus has
      right after that window. */
  lemma TableChars(m: Table, corpora: seq<string>, wl: nat, k: string, c: char)
    requires TableOf(m, corpora, wl)
    requires k in m
    ensures c in Chars(m[k]) <==> exists j: nat, i: nat :: j < |corpora| && FollowedAt(corpora[j], wl, k, c, i)
  {
    CountOfPositive(m[k], c);
    assert CountOf(Lookup(m, k), c) == TotalOccurrences(corpora, wl, k, c);
    TotalOccurrencesWitness(corpora, wl, k, c);
  }

  /** Each entry under a key counts exactly the times its character follows
      that window in the corpora, and that is at least once. */
  lemma TableEntryCount(m: Table, corpora: seq<string>, wl: nat, k: string, i: nat)
    requires TableOf(m, corpora, wl)
    requires k in m && i < |m[k]|
    ensures m[k][i].count == TotalOccurrences(corpora, wl, k, m[k][i].chr) > 0
  {
    CountOfEntry(m[k], i);
    assert CountOf(Lookup(m, k), m[k][i].chr) == TotalOccurrences(corpora, wl, k, m[k][i].chr);
  }

  /** Training one corpus no longer than the window gives an empty table. */
  lemma ShortCorpusEmptyTable(m: Table, corpus: string, wl: nat)
    requires TableOf(m, [corpus], wl)
    requires |corpus| <= wl
    ensures m == map[]
  {
    forall k ensures k !in m {
      TotalWindowsSnoc([], corpus, wl, k);
      assert [] + [corpus] == [corpus];
    }
  }

  /** The table after the counting loop has processed the positions before n:
      `m0` with, for each such position, the window there recorded as
      followed by the character after it. */
  ghost function Counted(m0: Table, corpus: string, wl: nat, n: int): Table
    requires n <= |corpus| - wl
    decreases n
  {
    if n <= 0 then m0
    else
      var m := Counted(m0, corpus, wl, n - 1);
      var w := corpus[n - 1..n - 1 + wl];
      m[w := Update(Lookup(m, w), corpus[n - 1 + wl])]
  }

  /** Unfolds one step of Counted: the window `w` ending before position i
      and the character `c` at position i are recorded. */
  lemma CountedStep(m0: Table, corpus: string, wl: nat, i: nat, w: string, c: char)
    requires wl <= i < |corpus|
    requires w == corpus[i - wl..i] && c == corpus[i]
    ensures Counted(m0, corpus, wl, i + 1 - wl) ==
            Counted(m0, corpus, wl, i - wl)[w := Update(Lookup(Counted(m0, corpus, wl, i - wl), w), c)]
  {
    assert corpus[i - wl..i - wl + wl] == w;
  }

  /** The state of training's reading loop before position i: the window
      holds the last (up to wl) characters read, it is shorter than wl only
      while the first wl characters are still being read, and `m` is the
      table counted so far. */
  ghost predicate Scanning(m0: Table, corpus: string, wl: nat, i: nat, window: string, m: Table)
  {
    && |window| <= i <= |corpus| && |window| <= wl
    && window == corpus[i - |window|..i]
    && (|window| < wl ==> i == |window|)
    && m == Counted(m0, corpus, wl, i - wl)
  }

  /** Before the window is full nothing has been recorded. */
  lemma ScanStart(m0: Table, corpus: string, wl: nat, i: nat, window: string)
    requires i <= wl && i <= |corpus|
    requires window == corpus[..i]
    ensures Scanning(m0, corpus, wl, i, window, m0)
  {
    assert corpus[i - |window|..i] == corpus[..i];
  }

  /** Reading a character after a full window records it under that window
      and slides the window by one. */
  lemma ScanRecord(m0: Table, corpus: string, wl: nat, i: nat, window: string, m: Table,
                   window': string, m': Table)
    requires Scanning(m0, corpus, wl, i, window, m)
    requires i < |corpus| && |window| == wl > 0
    requires window' == window[1..] + [corpus[i]]
    requires m' == m[window := Update(Lookup(m, window), corpus[i])]
    ensures Scanning(m0, corpus, wl, i + 1, window', m')
  {
    CountedStep(m0, corpus, wl, i, window, corpus[i]);
    SlideWindow(corpus, wl, i, window);
  }

  /** Once the whole corpus is read the table is the counted one. */
  lemma ScanDone(m0: Table, corpus: string, wl: nat, window: string, m: Table)
    requires Scanning(m0, corpus, wl, |corpus|, window, m)
    ensures m == Counted(m0, corpus, wl, |corpus| - wl)
  {
  }

  /** One step of Counted seen through one key: only the window at position
      n - 1 changes, and it gains the character after it. */
  lemma CountedLookup(m0: Table, corpus: string, wl: nat, n: int, k: string)
    requires 0 < n <= |corpus| - wl
    ensures var m := Counted(m0, corpus, wl, n - 1);
            var w := corpus[n - 1..n - 1 + wl];
            && (k in Counted(m0, corpus, wl, n) <==> k in m || k == w)
            && Lookup(Counted(m0, corpus, wl, n), k) ==
               if k == w then Update(Lookup(m, w), corpus[n - 1 + wl]) else Lookup(m, k)
  {
  }

  /** Every list of the counted table is non-empty and well formed, and every key has length wl. */
  lemma {:induction false} CountedShapedAt(m0: Table, corpus: string, wl: nat, n: int, k: string)
    requires Shaped(m0, wl)
    requires n <= |corpus| - wl
    requires k in Counted(m0, corpus, wl, n)
    ensures |k| == wl && Counted(m0, corpus, wl, n)[k] != [] && WellFormed(Counted(m0, corpus, wl, n)[k])
    decreases n
  {
    if n > 0 {
      var m := Counted(m0, corpus, wl, n - 1);
      var w := corpus[n - 1..n - 1 + wl];
      CountedLookup(m0, corpus, wl, n, k);
      if k == w {
        var s := Lookup(m, w);
        if w in m {
          CountedShapedAt(m0, corpus, wl, n - 1, w);
        } else {
          assert s == [];
        }
        assert corpus[n - 1 + wl] in Chars(Update(s, corpus[n - 1 + wl]));
      } else {
        CountedShapedAt(m0, corpus, wl, n - 1, k);
      }
    }
  }

  /** A key is in the counted table exactly when it was in m0 or was seen as a window. */
  lemma {:induction false} CountedKeyAt(m0: Table, corpus: string, wl: nat, n: int, k: string)
    requires n <= |corpus| - wl
    ensures k in Counted(m0, corpus, wl, n) <==> k in m0 || WindowsUpTo(corpus, wl, k, n) > 0
    decreases n
  {
    if n > 0 {
      CountedKeyAt(m0, corpus, wl, n - 1, k);
      CountedLookup(m0, corpus, wl, n, k);
      assert WindowAt(corpus, wl, k, n - 1) <==> k == corpus[n - 1..n - 1 + wl];
    }
  }

  /** The count of c under k is m0's plus the times c followed k before position n. */
  lemma {:induction false} CountedCountAt(m0: Table, corpus: string, wl: nat, n: int, k: string, c: char)
    requires n <= |corpus| - wl
    ensures CountOf(Lookup(Counted(m0, corpus, wl, n), k), c) ==
            CountOf(Lookup(m0, k), c) + OccurrencesUpTo(corpus, wl, k, c, n)
    decreases n
  {
    if n > 0 {
      var m := Counted(m0, corpus, wl, n - 1);
      var w := corpus[n - 1..n - 1 + wl];
      var d := corpus[n - 1 + wl];
      CountedCountAt(m0, corpus, wl, n - 1, k, c);
      CountedLookup(m0, corpus, wl, n, k);
      assert FollowedAt(corpus, wl, k, c, n - 1) <==> k == w && c == d;
    }
  }

  /** The total under k is m0's plus the times k was seen as a window before position n. */
  lemma {:induction false} CountedTotalAt(m0: Table, corpus: string, wl: nat, n: int, k: string)
    requires n <= |corpus| - wl
    ensures TotalCount(Lookup(Counted(m0, corpus, wl, n), k)) ==
            TotalCount(Lookup(m0, k)) + WindowsUpTo(corpus, wl, k, n)
    decreases n
  {
    if n > 0 {
      var m := Counted(m0, corpus, wl, n - 1);
      var w := corpus[n - 1..n - 1 + wl];
      CountedTotalAt(m0, corpus, wl, n - 1, k);
      CountedLookup(m0, corpus, wl, n, k);
      assert WindowAt(corpus, wl, k, n - 1) <==> k == w;
    }
  }

  /** A list of m0 whose window was not seen before position n is untouched. */
  lemma {:induction false} CountedKeptAt(m0: Table, corpus: string, wl: nat, n: int, k: string)
    requires n <= |corpus| - wl
    requires k in m0 && WindowsUpTo(corpus, wl, k, n) == 0
    ensures k in Counted(m0, corpus, wl, n) && Counted(m0, corpus, wl, n)[k] == m0[k]
    decreases n
  {
    if n > 0 {
      CountedLookup(m0, corpus, wl, n, k);
      assert !WindowAt(corpus, wl, k, n - 1);
      CountedKeptAt(m0, corpus, wl, n - 1, k);
    }
  }

  /** The counted table is shaped: keys of length wl, lists non-empty and well formed. */
  lemma CountedShaped(m0: Table, corpus: string, wl: nat, n: int)
    requires Shaped(m0, wl)
    requires n <= |corpus| - wl
    ensures Shaped(Counted(m0, corpus, wl, n), wl)
  {
    forall k | k in Counted(m0, corpus, wl, n)
      ensures |k| == wl && Counted(m0, corpus, wl, n)[k] != [] && WellFormed(Counted(m0, corpus, wl, n)[k])
    {
      CountedShapedAt(m0, corpus, wl, n, k);
    }
  }

  /** After training every list is non-empty, well formed and finalised,
      under a key of length wl. */
  lemma TrainedShapes(trained: Table, final: Table, wl: nat)
    requires Shaped(trained, wl)
    requires final.Keys == trained.Keys
    requires forall k :: k in trained ==> FinalizedFrom(final[k], trained[k])
    ensures forall k :: k in final ==> |k| == wl && final[k] != [] && WellFormed(final[k]) && Finalized(final[k])
  {
    forall k | k in final
      ensures |k| == wl && final[k] != [] && WellFormed(final[k]) && Finalized(final[k])
    {
      FinalizedShape(final[k], trained[k]);
    }
  }

  /** After training a key is present exactly when some corpus has it as a
      window followed by a character. */
  lemma TrainedKeys(m0: Table, trained: Table, final: Table, corpora: seq<string>, corpus: string, wl: nat)
    requires forall k :: k in m0 <==> TotalWindows(corpora, wl, k) > 0
    requires trained == Counted(m0, corpus, wl, |corpus| - wl)
    requires final.Keys == trained.Keys
    ensures forall k :: k in final <==> TotalWindows(corpora + [corpus], wl, k) > 0
  {
    forall k ensures k in final <==> TotalWindows(corpora + [corpus], wl, k) > 0 {
      CountedKeyAt(m0, corpus, wl, |corpus| - wl, k);
      TotalWindowsSnoc(corpora, corpus, wl, k);
    }
  }

  /** After training the count of c under k is the number of times c follows
      k in all corpora. */
  lemma TrainedCounts(m0: Table, trained: Table, final: Table, corpora: seq<string>, corpus: string, wl: nat)
    requires forall k, c :: CountOf(Lookup(m0, k), c) == TotalOccurrences(corpora, wl, k, c)
    requires trained == Counted(m0, corpus, wl, |corpus| - wl)
    requires final.Keys == trained.Keys
    requires forall k :: k in trained ==> SameCounts(final[k], trained[k])
    ensures forall k, c :: CountOf(Lookup(final, k), c) == TotalOccurrences(corpora + [corpus], wl, k, c)
  {
    forall k, c ensures CountOf(Lookup(final, k), c) == TotalOccurrences(corpora + [corpus], wl, k, c) {
      CountedCountAt(m0, corpus, wl, |corpus| - wl, k, c);
      TotalOccurrencesSnoc(corpora, corpus, wl, k, c);
      if k in final {
        SameCountsKeep(final[k], trained[k]);
      }
    }
  }

  /** After training the total under k is the number of times k occurs as a
      window followed by a character in all corpora. */
  lemma TrainedTotals(m0: Table, trained: Table, final: Table, corpora: seq<string>, corpus: string, wl: nat)
    requires forall k :: TotalCount(Lookup(m0, k)) == TotalWindows(corpora, wl, k)
    requires trained == Counted(m0, corpus, wl, |corpus| - wl)
    requires final.Keys == trained.Keys
    requires forall k :: k in trained ==> SameCounts(final[k], trained[k])
    ensures forall k :: TotalCount(Lookup(final, k)) == TotalWindows(corpora + [corpus], wl, k)
  {
    forall k ensures TotalCount(Lookup(final, k)) == TotalWindows(corpora + [corpus], wl, k) {
      CountedTotalAt(m0, corpus, wl, |corpus| - wl, k);
      TotalWindowsSnoc(corpora, corpus, wl, k);
      if k in final {
        SameCountsKeep(final[k], trained[k]);
      }
    }
  }

  /** Training leaves a finalised list untouched when its window does not
      occur in the new corpus. */
  lemma TrainedKept(m0: Table, trained: Table, final: Table, corpus: string, wl: nat)
    requires forall k :: k in m0 ==> Finalized(m0[k])
    requires trained == Counted(m0, corpus, wl, |corpus| - wl)
    requires final.Keys == trained.Keys
    requires forall k :: k in trained ==> FinalizedFrom(final[k], trained[k])
    ensures forall k :: k in m0 && WindowCount(corpus, wl, k) == 0 ==> k in final && final[k] == m0[k]
  {
    forall k | k in m0 && WindowCount(corpus, wl, k) == 0 ensures k in final && final[k] == m0[k] {
      CountedKeptAt(m0, corpus, wl, |corpus| - wl, k);
      FinalizationUnique(final[k], m0[k], m0[k]);
    }
  }

  /** Training's final state: finalising every list of the counted table
      gives the table of all corpora so far, and leaves the lists of windows
      that do not occur in the new corpus as they were. */
  lemma TrainedTable(m0: Table, trained: Table, final: Table, corpora: seq<string>, corpus: string, wl: nat)
    requires TableOf(m0, corpora, wl)
    requires trained == Counted(m0, corpus, wl, |corpus| - wl)
    requires Shaped(trained, wl)
    requires final.Keys == trained.Keys
    requires forall k :: k in trained ==> FinalizedFrom(final[k], trained[k])
    ensures TableOf(final, corpora + [corpus], wl)
    ensures forall k :: k in m0 && WindowCount(corpus, wl, k) == 0 ==> k in final && final[k] == m0[k]
  {
    TrainedShapes(trained, final, wl);
    TrainedKeys(m0, trained, final, corpora, corpus, wl);
    TrainedCounts(m0, trained, final, corpora, corpus, wl);
    TrainedTotals(m0, trained, final, corpora, corpus, wl);
    TrainedKept(m0, trained, final, corpus, wl);
  }

  /** Training is cumulative: the table after training on one more corpus
      has exactly the old keys plus the new corpus's windows, and its counts
      and totals are the old ones plus the new corpus's observations. */
  lemma TrainingAdds(m0: Table, m1: Table, corpora: seq<string>, corpus: string, wl: nat)
    requires TableOf(m0, corpora, wl)
    requires TableOf(m1, corpora + [corpus], wl)
    ensures forall k :: k in m1 <==> k in m0 || WindowCount(corpus, wl, k) > 0
    ensures forall k, c :: CountOf(Lookup(m1, k), c) == CountOf(Lookup(m0, k), c) + Occurrences(corpus, wl, k, c)
    ensures forall k :: TotalCount(Lookup(m1, k)) == TotalCount(Lookup(m0, k)) + WindowCount(corpus, wl, k)
  {
    forall k
      ensures k in m1 <==> k in m0 || WindowCount(corpus, wl, k) > 0
      ensures TotalCount(Lookup(m1, k)) == TotalCount(Lookup(m0, k)) + WindowCount(corpus, wl, k)
    {
      TotalWindowsSnoc(corpora, corpus, wl, k);
    }
    forall k, c ensures CountOf(Lookup(m1, k), c) == CountOf(Lookup(m0, k), c) + Occurrences(corpus, wl, k, c) {
      TotalOccurrencesSnoc(corpora, corpus, wl, k, c);
    }
  }

  /** A corpus with no window followed by a character leaves the table as
      it was (given the key relation of TrainingAdds and what Train keeps). */
  lemma ShortCorpusKeepsTable(m0: Table, m1: Table, corpus: string, wl: nat)
    requires forall k :: k in m1 <==> k in m0 || WindowCount(corpus, wl, k) > 0
    requires forall k :: k in m0 && WindowCount(corpus, wl, k) == 0 ==> k in m1 && m1[k] == m0[k]
    requires |corpus| <= wl
    ensures m1 == m0
  {
    forall k ensures k in m1 <==> k in m0 {
      assert WindowCount(corpus, wl, k) == 0;
    }
  }

  /** Every character of `text` from position `start` on was sampled, with
      the draw for its offset from `start`, from the list of the window
      before it, and that window has a non-empty list. */
  ghost predicate SampledFrom(m: Table, wl: nat, text: string, start: nat, draws: nat -> real)
  {
    forall k :: start <= k < |text| ==>
      Window(text[..k], wl) in m && m[Window(text[..k], wl)] != [] &&
      text[k] == Sample(m[Window(text[..k], wl)], draws(k - start))
  }

  /** Appending the character sampled for the current window keeps SampledFrom. */
  lemma SampledExtend(m: Table, wl: nat, text: string, start: nat, draws: nat -> real, c: char)
    requires SampledFrom(m, wl, text, start, draws)
    requires start <= |text|
    requires Window(text, wl) in m && m[Window(text, wl)] != []
    requires c == Sample(m[Window(text, wl)], draws(|text| - start))
    ensures SampledFrom(m, wl, text + [c], start, draws)
  {
    var t := text + [c];
    forall k | start <= k < |t|
      ensures Window(t[..k], wl) in m && m[Window(t[..k], wl)] != [] &&
              t[k] == Sample(m[Window(t[..k], wl)], draws(k - start))
    {
      if k < |text| {
        assert t[..k] == text[..k];
      } else {
        assert t[..k] == text;
      }
    }
  }

  /** A prefix reaching at least `start` keeps SampledFrom. */
  lemma SampledPrefix(m: Table, wl: nat, text: string, start: nat, draws: nat -> real, n: nat)
    requires SampledFrom(m, wl, text, start, draws)
    requires n <= |text|
    ensures SampledFrom(m, wl, text[..n], start, draws)
  {
    var t := text[..n];
    forall k | start <= k < |t|
      ensures Window(t[..k], wl) in m && m[Window(t[..k], wl)] != [] &&
              t[k] == Sample(m[Window(t[..k], wl)], draws(k - start))
    {
      assert t[..k] == text[..k];
    }
  }

  /** Every sampled character is one the table has seen after its window. */
  lemma SampledSeen(m: Table, wl: nat, text: string, start: nat, draws: nat -> real)
    requires SampledFrom(m, wl, text, start, draws)
    ensures forall k :: start <= k < |text| ==> text[k] in Chars(m[Window(text[..k], wl)])
  {
  }

  /** Every character generated from a trained table follows, in some
      corpus, the wl characters that precede it in the text. */
  lemma GeneratedObserved(m: Table, corpora: seq<string>, wl: nat, text: string, start: nat,
                          draws: nat -> real, k: nat)
    requires TableOf(m, corpora, wl)
    requires SampledFrom(m, wl, text, start, draws)
    requires start <= k < |text|
    ensures k >= wl && Window(text[..k], wl) == text[k - wl..k]
    ensures exists j: nat, i: nat :: j < |corpora| && FollowedAt(corpora[j], wl, Window(text[..k], wl), text[k], i)
  {
    var key := Window(text[..k], wl);
    assert key in m;
    TableKeys(m, corpora, wl, key);
    WindowOfPrefix(text, wl, k);
    TableChars(m, corpora, wl, key, text[k]);
  }

  /** A window of full length wl taken before position k is text[k - wl..k]. */
  lemma WindowOfPrefix(text: string, wl: nat, k: nat)
    requires k <= |text|
    requires |Window(text[..k], wl)| == wl
    ensures k >= wl && Window(text[..k], wl) == text[k - wl..k]
  {
  }

  /** The first loop of train: reads characters into the window until it
      holds wl of them or the corpus is exhausted. */
  method FirstWindow(wl: nat, corpus: string) returns (window: string, i: nat)
    ensures i == if |corpus| < wl then |corpus| else wl
    ensures window == corpus[..i]
  {
    window := [];
    i := 0;
    while i < wl && i < |corpus|
      invariant i <= wl && i <= |corpus|
      invariant window == corpus[..i]
    {
      window := window + [corpus[i]];
      i := i + 1;
    }
  }

  /** The reading pass of train: slides the window over `corpus` and
      records, under each full window, the character that follows it. */
  method CountWindows(wl: nat, table0: Table, corpus: string) returns (table: Table)
    requires wl > 0 || corpus == []
    ensures table == Counted(table0, corpus, wl, |corpus| - wl)
  {
    table := table0;
    var window, i := FirstWindow(wl, corpus);
    ScanStart(table0, corpus, wl, i, window);
    while i < |corpus|
      invariant Scanning(table0, corpus, wl, i, window, table)
      invariant i < |corpus| ==> |window| == wl
    {
      var nextChar := corpus[i];
      if |window| < wl {
        assert false;
        window := window + [nextChar];
      } else {
        ghost var window0, table1 := window, table;
        var currentWindow := window;
        var probs := Lookup(table, currentWindow);
        probs := Update(probs, nextChar);
        table := table[currentWindow := probs];
        window := window[1..] + [nextChar];
        ScanRecord(table0, corpus, wl, i, window0, table1, window, table);
      }
      i := i + 1;
    }
    ScanDone(table0, corpus, wl, window, table);
  }

  /** The last pass of train: calculateProbabilities on every list of the table. */
  method CalculateAll(table0: Table) returns (table: Table)
    requires forall k :: k in table0 ==> table0[k] != [] && Positive(table0[k])
    ensures table.Keys == table0.Keys
    ensures forall k :: k in table0 ==> FinalizedFrom(table[k], table0[k])
  {
    table := table0;
    var keys := table.Keys;
    while keys != {}
      invariant keys <= table0.Keys && table.Keys == table0.Keys
      invariant forall k :: k in keys ==> table[k] == table0[k]
      invariant forall k :: k in table0 && k !in keys ==> FinalizedFrom(table[k], table0[k])
      decreases keys
    {
      var k :| k in keys;
      PositiveTotal(table[k]);
      var list := CalculateProbabilities(table[k]);
      table := table[k := list];
      keys := keys - {k};
    }
  }

  /** Sets each entry's p to its share of the list's total count and its cp
      to the running sum of p, leaving characters and counts as they are. */
  method CalculateProbabilities(probs: seq<CharData>) returns (r: seq<CharData>)
    requires probs == [] || TotalCount(probs) > 0
    ensures FinalizedFrom(r, probs)
  {
    var totalCount: nat := 0;
    var i := 0;
    while i < |probs|
      invariant i <= |probs|
      invariant totalCount == TotalCount(probs[..i])
    {
      assert probs[..i + 1] == probs[..i] + [probs[i]];
      TotalCountSnoc(probs[..i], probs[i]);
      totalCount := totalCount + probs[i].count;
      i := i + 1;
    }
    assert probs[..i] == probs;

    r := probs;
    var totalCp := 0.0;
    i := 0;
    while i < |r|
      invariant i <= |r| == |probs|
      invariant SameCounts(r, probs)
      invariant forall j :: 0 <= j < i ==> r[j].p == r[j].count as real / totalCount as real
      invariant forall j :: 0 <= j < i ==> r[j].cp == CumP(r, j + 1)
      invariant totalCp == CumP(r, i)
      invariant forall j :: i <= j < |r| ==> r[j] == probs[j]
    {
      var charData := r[i];
      charData := charData.(p := charData.count as real / totalCount as real);
      totalCp := totalCp + charData.p;
      charData := charData.(cp := totalCp);
      var r' := r[i := charData];
      forall j | 0 <= j <= i ensures CumP(r', j) == CumP(r, j) {
        CumPSame(r', r, j);
      }
      r := r';
      i := i + 1;
    }
  }

  /** train on a table: counts the windows of `corpus` into `table0`, then
      recomputes the probabilities of every list. */
  method TrainTable(wl: nat, table0: Table, ghost corpora: seq<string>, corpus: string) returns (table: Table)
    requires TableOf(table0, corpora, wl)
    requires wl > 0 || corpus == []
    ensures TableOf(table, corpora + [corpus], wl)
    ensures forall k :: k in table0 && WindowCount(corpus, wl, k) == 0 ==> k in table && table[k] == table0[k]
  {
    TableShaped(table0, corpora, wl);
    var trained := CountWindows(wl, table0, corpus);
    CountedShaped(table0, corpus, wl, |corpus| - wl);
    table := CalculateAll(trained);
    TrainedTable(table0, trained, table, corpora, corpus, wl);
  }

  /** Picks the character for the draw `randomValue` by scanning the list
      for the first entry with randomValue < cp, falling back to the last
      entry when there is none. */
  method GetRandomChar(probs: seq<CharData>, randomValue: real) returns (c: char)
    requires probs != []
    ensures c == Sample(probs, randomValue)
    ensures c in Chars(probs)
  {
    var i := 0;
    while i < |probs|
      invariant i <= |probs|
      invariant forall j :: 0 <= j < i ==> probs[j].cp <= randomValue
    {
      if randomValue < probs[i].cp {
        return probs[i].chr;
      }
      i := i + 1;
    }
    return probs[|probs| - 1].chr;
  }

  /** generate, on a table with window length wl: extends `initialText`
      one sampled character at a time until the text has textLength
      characters or its trailing window is not in the table; a text already
      longer than textLength is cut to that length. The k-th sampled
      character uses the draw `draws(k)`. */
  method GenerateText(table: Table, wl: nat, initialText: string, textLength: nat, draws: nat -> real) returns (text: string)
    requires Shaped(table, wl)
    ensures |text| <= textLength
    ensures |initialText| > textLength ==> text == initialText[..textLength]
    ensures |initialText| <= textLength ==> |initialText| <= |text| && text[..|initialText|] == initialText
    ensures SampledFrom(table, wl, text, |initialText|, draws)
    ensures |initialText| <= |text| < textLength ==> Window(text, wl) !in table
    ensures |initialText| <= textLength && Window(initialText, wl) !in table ==>
              text == initialText
    ensures |initialText| <= textLength && |initialText| < wl ==> text == initialText
  {
    var generated := initialText;
    while |generated| < textLength
      invariant |initialText| <= |generated| && generated[..|initialText|] == initialText
      invariant |initialText| < |generated| ==> |generated| <= textLength
      invariant SampledFrom(table, wl, generated, |initialText|, draws)
      decreases textLength - |generated|
    {
      var currentWindow := Window(generated, wl);
      if currentWindow !in table {
        break;
      }
      var probs := table[currentWindow];
      var nextChar := GetRandomChar(probs, draws(|generated| - |initialText|));
      SampledExtend(table, wl, generated, |initialText|, draws, nextChar);
      assert (generated + [nextChar])[..|initialText|] == initialText;
      generated := generated + [nextChar];
      if |generated| >= textLength {
        break;
      }
    }

    if |generated| > textLength {
      SampledPrefix(table, wl, generated, |initialText|, draws, textLength);
      text := generated[..textLength];
    } else {
      text := generated;
    }
    assert |initialText| < |text| ==> text[..|initialText|] == initialText;
  }

  class LanguageModel {
    /** Maps each window to the list of character data observed after it. */
    var charDataMap: Table
    /** The window length, fixed at construction. */
    const windowLength: nat
    /** Every corpus trained on so far, in order. */
    ghost var corpora: seq<string>

    ghost predicate Valid()
      reads this
    {
      TableOf(charDataMap, corpora, windowLength)
    }

    /** A model with the given window length and an empty table. */
    constructor (windowLength: nat)
      ensures Valid()
      ensures this.windowLength == windowLength
      ensures charDataMap == map[] && corpora == []
    {
      this.windowLength := windowLength;
      charDataMap := map[];
      corpora := [];
    }

    /** Slides a window of windowLength characters over `corpus`, records in
        the table which character follows each window, then recomputes the
        probabilities of every list. Training is cumulative: the counts of
        earlier corpora are kept. */
    method Train(corpus: string)
      requires Valid()
      requires windowLength > 0 || corpus == []
      modifies this
      ensures Valid()
      ensures corpora == old(corpora) + [corpus]
      ensures forall k :: k in old(charDataMap) && WindowCount(corpus, windowLength, k) == 0 ==>
                          k in charDataMap && charDataMap[k] == old(charDataMap)[k]
    {
      charDataMap := TrainTable(windowLength, charDataMap, corpora, corpus);
      corpora := corpora + [corpus];
    }

    /** Extends `initialText` one sampled character at a time until the text
        has textLength characters or its trailing window is not in the
        table; a text already longer than textLength is cut to that length.
        The k-th sampled character uses the draw `draws(k)`. */
    method Generate(initialText: string, textLength: nat, draws: nat -> real) returns (text: string)
      requires Valid()
      ensures |text| <= textLength
      ensures |initialText| > textLength ==> text == initialText[..textLength]
      ensures |initialText| <= textLength ==> |initialText| <= |text| && text[..|initialText|] == initialText
      ensures SampledFrom(charDataMap, windowLength, text, |initialText|, draws)
      ensures |initialText| <= |text| < textLength ==> Window(text, windowLength) !in charDataMap
      ensures |initialText| <= textLength && Window(initialText, windowLength) !in charDataMap ==>
                text == initialText
      ensures |initialText| <= textLength && |initialText| < windowLength ==> text == initialText
    {
      TableShaped(charDataMap, corpora, windowLength);
      text := GenerateText(charDataMap, windowLength, initialText, textLength, draws);
    }
  }
}
