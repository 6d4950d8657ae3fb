/**
 * The probability distribution a finalised list describes, and inverse-CDF
 * sampling from it. Probabilities are exact rationals (`real`): the `double`
 * rounding of LanguageModel.java is not modelled.
 */
module Distribution {
  import opened CharLists

  /** p[0] + ... + p[n-1]. */
  function CumP(s: seq<CharData>, n: nat): real
    requires n <= |s|
  {
    if n == 0 then 0.0 else CumP(s, n - 1) + s[n - 1].p
  }

  /** `r` is `s` after calculateProbabilities: the same characters and counts
      in the same order, each p the entry's share of the list's total count,
      and each cp the running sum of the p values up to and including it. */
  ghost predicate FinalizedFrom(r: seq<CharData>, s: seq<CharData>)
  {
    && SameCounts(r, s)
    && (forall i :: 0 <= i < |r| ==>
          TotalCount(s) > 0 && r[i].p == r[i].count as real / TotalCount(s) as real)
    && (forall i :: 0 <= i < |r| ==> r[i].cp == CumP(r, i + 1))
  }

  /** A list whose probability fields are those of its own counts. */
  ghost predicate Finalized(s: seq<CharData>)
  {
    FinalizedFrom(s, s)
  }

  /** cp is non-decreasing along the list. */
  ghost predicate CpNonDecreasing(s: seq<CharData>)
  {
    forall i, j :: 0 <= i <= j < |s| ==> s[i].cp <= s[j].cp
  }

  /** The running sum of probabilities is the running count over the total. */
  lemma {:induction false} CumulativeIsCountRatio(r: seq<CharData>, s: seq<CharData>, n: nat)
    requires FinalizedFrom(r, s)
    requires r != []
    requires n <= |r|
    ensures CumP(r, n) == TotalCount(r[..n]) as real / TotalCount(s) as real
  {
    assert TotalCount(s) > 0 by { assert 0 <= 0 < |r|; }
    if n == 0 {
      assert r[..0] == [];
    } else {
      var t := TotalCount(s) as real;
      CumulativeIsCountRatio(r, s, n - 1);
      assert r[..n] == r[..n - 1] + [r[n - 1]];
      TotalCountSnoc(r[..n - 1], r[n - 1]);
      assert r[n - 1].p == r[n - 1].count as real / t;
      AddRatios(TotalCount(r[..n - 1]), r[n - 1].count, TotalCount(s));
    }
  }

  lemma AddRatios(a: nat, b: nat, t: nat)
    requires t > 0
    ensures a as real / t as real + b as real / t as real == (a + b) as real / t as real
  {
  }

  lemma {:induction false} CumPMonotone(r: seq<CharData>, a: nat, b: nat)
    requires a <= b <= |r|
    requires forall i :: 0 <= i < |r| ==> r[i].p >= 0.0
    ensures CumP(r, a) <= CumP(r, b)
    decreases b - a
  {
    if a < b {
      CumPMonotone(r, a, b - 1);
    }
  }

  /** After finalisation cp never decreases along the list. */
  lemma CumulativeNonDecreasing(r: seq<CharData>, s: seq<CharData>)
    requires FinalizedFrom(r, s)
    ensures CpNonDecreasing(r)
  {
    forall i, j | 0 <= i <= j < |r| ensures r[i].cp <= r[j].cp {
      CumPMonotone(r, i + 1, j + 1);
    }
  }

  /** After finalisation of a non-empty list the probabilities sum to 1 and
      the last cumulative probability is 1. */
  lemma CumulativeEndsAtOne(r: seq<CharData>, s: seq<CharData>)
    requires FinalizedFrom(r, s)
    requires r != []
    ensures CumP(r, |r|) == 1.0
    ensures r[|r| - 1].cp == 1.0
  {
    CumulativeIsCountRatio(r, s, |r|);
    assert r[..|r|] == r;
    SameCountsKeep(r, s);
    FinalizedTotal(r, s);
    WholeRatio(TotalCount(r), TotalCount(s));
  }

  /** A non-empty finalised list comes from a list with a positive total. */
  lemma FinalizedTotal(r: seq<CharData>, s: seq<CharData>)
    requires FinalizedFrom(r, s)
    requires r != []
    ensures TotalCount(s) > 0
  {
    assert 0 <= 0 < |r|;
  }

  lemma WholeRatio(a: nat, t: nat)
    requires a == t > 0
    ensures a as real / t as real == 1.0
  {
  }

  lemma {:induction false} CumPSame(a: seq<CharData>, b: seq<CharData>, n: nat)
    requires n <= |a| && n <= |b|
    requires forall i :: 0 <= i < n ==> a[i].p == b[i].p
    ensures CumP(a, n) == CumP(b, n)
  {
    if n > 0 {
      CumPSame(a, b, n - 1);
    }
  }

  /** The counts of a list determine its finalised form. */
  lemma FinalizationUnique(r1: seq<CharData>, r2: seq<CharData>, s: seq<CharData>)
    requires FinalizedFrom(r1, s)
    requires FinalizedFrom(r2, s)
    ensures r1 == r2
  {
    forall i | 0 <= i < |r1| ensures r1[i] == r2[i] {
      CumPSame(r1, r2, i + 1);
    }
  }

  /** A finalised list is finalised with respect to its own counts. */
  lemma FinalizedIsFinal(r: seq<CharData>, s: seq<CharData>)
    requires FinalizedFrom(r, s)
    ensures Finalized(r)
  {
    SameCountsKeep(r, s);
  }

  /** Finalising a non-empty well-formed list gives a non-empty, well-formed, finalised list. */
  lemma FinalizedShape(r: seq<CharData>, s: seq<CharData>)
    requires FinalizedFrom(r, s)
    requires s != [] && WellFormed(s)
    ensures r != [] && WellFormed(r) && Finalized(r)
  {
    SameCountsKeep(r, s);
    FinalizedIsFinal(r, s);
  }

  /** Finalising an already finalised, unchanged list gives it back unchanged. */
  lemma FinalizationIdempotent(r: seq<CharData>, r2: seq<CharData>)
    requires Finalized(r)
    requires FinalizedFrom(r2, r)
    ensures r2 == r
  {
    FinalizationUnique(r2, r, r);
  }

  /** The index of the first entry at or after `from` whose cp exceeds `r`,
      or |s| when there is none. */
  function FirstAbove(s: seq<CharData>, r: real, from: nat): (k: nat)
    requires from <= |s|
    ensures from <= k <= |s|
    ensures forall j :: from <= j < k ==> s[j].cp <= r
    ensures k < |s| ==> r < s[k].cp
    decreases |s| - from
  {
    if from == |s| then from
    else if r < s[from].cp then from
    else FirstAbove(s, r, from + 1)
  }

  /** getRandomChar for draw `r`: the character of the first entry with
      r < cp, or of the last entry when no entry qualifies. */
  function Sample(s: seq<CharData>, r: real): (c: char)
    requires s != []
    ensures c in Chars(s)
  {
    var k := FirstAbove(s, r, 0);
    var i := if k < |s| then k else |s| - 1;
    InChars(s, i);
    s[i].chr
  }

  /** Inverse-CDF sampling: a draw in [cp[i-1], cp[i]) selects entry i
      (for i = 0 the interval is everything below cp[0]). */
  lemma SampleSelectsInterval(s: seq<CharData>, r: real, i: nat)
    requires CpNonDecreasing(s)
    requires i < |s|
    requires i > 0 ==> s[i - 1].cp <= r
    requires r < s[i].cp
    ensures FirstAbove(s, r, 0) == i
    ensures Sample(s, r) == s[i].chr
  {
  }

  /** With exact arithmetic, a draw below 1 never reaches the fallback to the
      last entry on a finalised non-empty list. */
  lemma NoFallbackWhenFinalized(s: seq<CharData>, t: seq<CharData>, r: real)
    requires FinalizedFrom(s, t)
    requires s != []
    requires r < 1.0
    ensures FirstAbove(s, r, 0) < |s|
  {
    CumulativeEndsAtOne(s, t);
  }
}
