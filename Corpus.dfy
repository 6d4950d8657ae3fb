/**
 * What training observes in a corpus: the windows of `wl` consecutive
 * characters that are followed by one more character, and which character
 * follows them. A corpus is a string; reading it from a file is not modelled.
 */
module Corpus {

  /** The window starting at position i is `key` and has a character after it. */
  predicate WindowAt(corpus: string, wl: nat, key: string, i: nat)
  {
    i + wl < |corpus| && corpus[i..i + wl] == key
  }

  /** The window starting at position i is `key` and `c` follows it. */
  predicate FollowedAt(corpus: string, wl: nat, key: string, c: char, i: nat)
  {
    WindowAt(corpus, wl, key, i) && corpus[i + wl] == c
  }

  /** Dropping the first character of the window ending before i and
      appending corpus[i] gives the window ending before i + 1. */
  lemma SlideWindow(corpus: string, wl: nat, i: nat, window: string)
    requires wl <= i < |corpus|
    requires window == corpus[i - wl..i]
    requires 0 < wl
    ensures window[1..] + [corpus[i]] == corpus[i + 1 - wl..i + 1]
  {
  }

  /** The number of positions i < n at which `key` is followed by `c`. */
  function OccurrencesUpTo(corpus: string, wl: nat, key: string, c: char, n: int): nat
    decreases n
  {
    if n <= 0 then 0
    else OccurrencesUpTo(corpus, wl, key, c, n - 1) + (if FollowedAt(corpus, wl, key, c, n - 1) then 1 else 0)
  }

  /** The number of positions i < n at which `key` is followed by some character. */
  function WindowsUpTo(corpus: string, wl: nat, key: string, n: int): nat
    decreases n
  {
    if n <= 0 then 0
    else WindowsUpTo(corpus, wl, key, n - 1) + (if WindowAt(corpus, wl, key, n - 1) then 1 else 0)
  }

  /** How often `c` follows `key` in the corpus. */
  function Occurrences(corpus: string, wl: nat, key: string, c: char): nat
  {
    OccurrencesUpTo(corpus, wl, key, c, |corpus| - wl)
  }

  /** How often `key` is followed by a character in the corpus. */
  function WindowCount(corpus: string, wl: nat, key: string): nat
  {
    WindowsUpTo(corpus, wl, key, |corpus| - wl)
  }

  /** Occurrences summed over several corpora. */
  function TotalOccurrences(corpora: seq<string>, wl: nat, key: string, c: char): nat
  {
    if corpora == [] then 0
    else TotalOccurrences(corpora[..|corpora| - 1], wl, key, c) + Occurrences(corpora[|corpora| - 1], wl, key, c)
  }

  /** Window counts summed over several corpora. */
  function TotalWindows(corpora: seq<string>, wl: nat, key: string): nat
  {
    if corpora == [] then 0
    else TotalWindows(corpora[..|corpora| - 1], wl, key) + WindowCount(corpora[|corpora| - 1], wl, key)
  }

  /** One more corpus adds its own occurrences. */
  lemma TotalOccurrencesSnoc(corpora: seq<string>, corpus: string, wl: nat, key: string, c: char)
    ensures TotalOccurrences(corpora + [corpus], wl, key, c) ==
            TotalOccurrences(corpora, wl, key, c) + Occurrences(corpus, wl, key, c)
  {
    var all := corpora + [corpus];
    assert all[..|all| - 1] == corpora;
  }

  /** One more corpus adds its own window count. */
  lemma TotalWindowsSnoc(corpora: seq<string>, corpus: string, wl: nat, key: string)
    ensures TotalWindows(corpora + [corpus], wl, key) == TotalWindows(corpora, wl, key) + WindowCount(corpus, wl, key)
  {
    var all := corpora + [corpus];
    assert all[..|all| - 1] == corpora;
  }

  /** `key` followed by `c` is counted before n exactly when it is seen at some position before n. */
  lemma {:induction false} OccurrencesUpToWitness(corpus: string, wl: nat, key: string, c: char, n: int)
    ensures OccurrencesUpTo(corpus, wl, key, c, n) > 0 <==>
            exists i: nat :: i < n && FollowedAt(corpus, wl, key, c, i)
    decreases n
  {
    if n > 0 {
      OccurrencesUpToWitness(corpus, wl, key, c, n - 1);
      if OccurrencesUpTo(corpus, wl, key, c, n - 1) > 0 {
        var i: nat :| i < n - 1 && FollowedAt(corpus, wl, key, c, i);
        assert i < n;
      }
    }
  }

  /** `key` is counted as a window before n exactly when it is seen at some position before n. */
  lemma {:induction false} WindowsUpToWitness(corpus: string, wl: nat, key: string, n: int)
    ensures WindowsUpTo(corpus, wl, key, n) > 0 <==>
            exists i: nat :: i < n && WindowAt(corpus, wl, key, i)
    decreases n
  {
    if n > 0 {
      WindowsUpToWitness(corpus, wl, key, n - 1);
      if WindowsUpTo(corpus, wl, key, n - 1) > 0 {
        var i: nat :| i < n - 1 && WindowAt(corpus, wl, key, i);
        assert i < n;
      }
    }
  }

  /** Only strings of length wl are ever counted as windows. */
  lemma {:induction false} WindowsHaveLength(corpus: string, wl: nat, key: string, n: int)
    requires WindowsUpTo(corpus, wl, key, n) > 0
    ensures |key| == wl
  {
    WindowsUpToWitness(corpus, wl, key, n);
  }

  /** `c` follows `key` in the corpus exactly when Occurrences counts it. */
  lemma OccurrencesWitness(corpus: string, wl: nat, key: string, c: char)
    ensures Occurrences(corpus, wl, key, c) > 0 <==>
            exists i: nat :: FollowedAt(corpus, wl, key, c, i)
  {
    OccurrencesUpToWitness(corpus, wl, key, c, |corpus| - wl);
  }

  /** `key` is followed by some character in the corpus exactly when WindowCount counts it. */
  lemma WindowCountWitness(corpus: string, wl: nat, key: string)
    ensures WindowCount(corpus, wl, key) > 0 <==>
            exists i: nat :: WindowAt(corpus, wl, key, i)
  {
    WindowsUpToWitness(corpus, wl, key, |corpus| - wl);
  }

  /** `c` follows `key` in one of the corpora exactly when TotalOccurrences counts it. */
  lemma {:induction false} TotalOccurrencesWitness(corpora: seq<string>, wl: nat, key: string, c: char)
    ensures TotalOccurrences(corpora, wl, key, c) > 0 <==>
            exists j: nat, i: nat :: j < |corpora| && FollowedAt(corpora[j], wl, key, c, i)
  {
    if corpora != [] {
      var init := corpora[..|corpora| - 1];
      var last := |corpora| - 1;
      TotalOccurrencesWitness(init, wl, key, c);
      OccurrencesWitness(corpora[last], wl, key, c);
      if TotalOccurrences(corpora, wl, key, c) > 0 {
        if TotalOccurrences(init, wl, key, c) > 0 {
          var j: nat, i: nat :| j < |init| && FollowedAt(init[j], wl, key, c, i);
          assert corpora[j] == init[j];
        } else {
          var i: nat :| FollowedAt(corpora[last], wl, key, c, i);
        }
      } else {
        forall j: nat, i: nat | j < |corpora| ensures !FollowedAt(corpora[j], wl, key, c, i) {
          if j < last {
            assert corpora[j] == init[j];
          }
        }
      }
    }
  }

  /** `key` is followed by a character in one of the corpora exactly when TotalWindows counts it. */
  lemma {:induction false} TotalWindowsWitness(corpora: seq<string>, wl: nat, key: string)
    ensures TotalWindows(corpora, wl, key) > 0 <==>
            exists j: nat, i: nat :: j < |corpora| && WindowAt(corpora[j], wl, key, i)
  {
    if corpora != [] {
      var init := corpora[..|corpora| - 1];
      var last := |corpora| - 1;
      TotalWindowsWitness(init, wl, key);
      WindowCountWitness(corpora[last], wl, key);
      if TotalWindows(corpora, wl, key) > 0 {
        if TotalWindows(init, wl, key) > 0 {
          var j: nat, i: nat :| j < |init| && WindowAt(init[j], wl, key, i);
          assert corpora[j] == init[j];
        } else {
          var i: nat :| WindowAt(corpora[last], wl, key, i);
        }
      } else {
        forall j: nat, i: nat | j < |corpora| ensures !WindowAt(corpora[j], wl, key, i) {
          if j < last {
            assert corpora[j] == init[j];
          }
        }
      }
    }
  }
}
