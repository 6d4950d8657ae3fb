/**
 * The list of character data that the language model keeps for each window:
 * one entry per character observed after that window, with its count and the
 * probability fields that finalisation fills in.
 *
 * LanguageModel.java's List and CharData classes are not part of this model;
 * the list is a sequence of CharData values and List.update is modelled by the
 * contract its callers rely on (increment the character's count, or add it
 * with count 1).
 */
module CharLists {

  /** One observed follow-character: its count, probability and cumulative probability. */
  datatype CharData = CharData(chr: char, count: nat, p: real, cp: real)

  /** The number of times `c` is recorded in `s` (0 when `c` has no entry). */
  function CountOf(s: seq<CharData>, c: char): nat
  {
    if s == [] then 0
    else (if s[0].chr == c then s[0].count else 0) + CountOf(s[1..], c)
  }

  /** The sum of all counts in `s`. */
  function TotalCount(s: seq<CharData>): nat
  {
    if s == [] then 0 else s[0].count + TotalCount(s[1..])
  }

  /** The characters that have an entry in `s`. */
  function Chars(s: seq<CharData>): set<char>
  {
    if s == [] then {} else {s[0].chr} + Chars(s[1..])
  }

  /** No character has two entries. */
  predicate Distinct(s: seq<CharData>)
  {
    s == [] || (s[0].chr !in Chars(s[1..]) && Distinct(s[1..]))
  }

  /** Every entry has been observed at least once. */
  predicate Positive(s: seq<CharData>)
  {
    forall i :: 0 <= i < |s| ==> s[i].count > 0
  }

  /** The shape every list built by training has. */
  predicate WellFormed(s: seq<CharData>)
  {
    Distinct(s) && Positive(s)
  }

  /** Two lists with the same characters and counts in the same order
      (they may differ only in their probability fields). */
  predicate SameCounts(r: seq<CharData>, s: seq<CharData>)
  {
    |r| == |s| &&
    forall i :: 0 <= i < |r| ==> r[i].chr == s[i].chr && r[i].count == s[i].count
  }

  /** List.update: records one more observation of `c`. The entry for `c` is
      incremented when there is one; otherwise a new entry with count 1 is
      added (at the back here; no property below depends on that position).
      The result counts `c` once more, and the total too, and no other
      character differently; `c` has an entry afterwards, and a list that had
      distinct, positive entries still has. */
  function Update(s: seq<CharData>, c: char): (r: seq<CharData>)
    ensures forall d :: CountOf(r, d) == CountOf(s, d) + (if d == c then 1 else 0)
    ensures TotalCount(r) == TotalCount(s) + 1
    ensures Chars(r) == Chars(s) + {c}
    ensures Distinct(s) ==> Distinct(r)
    ensures Positive(s) ==> Positive(r)
    ensures |r| == if c in Chars(s) then |s| else |s| + 1
  {
    if s == [] then [CharData(c, 1, 0.0, 0.0)]
    else if s[0].chr == c then
      var r := [s[0].(count := s[0].count + 1)] + s[1..];
      assert r[1..] == s[1..];
      r
    else
      var r := [s[0]] + Update(s[1..], c);
      assert r[1..] == Update(s[1..], c);
      r
  }

  lemma {:induction false} InChars(s: seq<CharData>, i: nat)
    requires i < |s|
    ensures s[i].chr in Chars(s)
  {
    if i > 0 {
      InChars(s[1..], i - 1);
    }
  }

  /** In a distinct list the count recorded for an entry's character is that entry's count. */
  lemma {:induction false} CountOfEntry(s: seq<CharData>, i: nat)
    requires Distinct(s)
    requires i < |s|
    ensures CountOf(s, s[i].chr) == s[i].count
  {
    if i == 0 {
      CountOfAbsent(s[1..], s[0].chr);
    } else {
      InChars(s[1..], i - 1);
      CountOfEntry(s[1..], i - 1);
    }
  }

  lemma {:induction false} CountOfAbsent(s: seq<CharData>, c: char)
    requires c !in Chars(s)
    ensures CountOf(s, c) == 0
  {
    if s != [] {
      CountOfAbsent(s[1..], c);
    }
  }

  /** When every entry is positive, `c` has a non-zero count exactly when it has an entry. */
  lemma {:induction false} CountOfPositive(s: seq<CharData>, c: char)
    requires Positive(s)
    ensures CountOf(s, c) > 0 <==> c in Chars(s)
  {
    if s != [] {
      assert Positive(s[1..]) by {
        forall i | 0 <= i < |s[1..]| ensures s[1..][i].count > 0 {
          assert s[1..][i] == s[i + 1];
        }
      }
      CountOfPositive(s[1..], c);
    }
  }

  /** A non-empty list of positive entries has a positive total. */
  lemma PositiveTotal(s: seq<CharData>)
    requires Positive(s)
    requires s != []
    ensures TotalCount(s) > 0
  {
    assert s[0].count > 0;
  }

  lemma {:induction false} TotalCountSnoc(s: seq<CharData>, x: CharData)
    ensures TotalCount(s + [x]) == TotalCount(s) + x.count
  {
    if s == [] {
      assert s + [x] == [x];
    } else {
      assert (s + [x])[1..] == s[1..] + [x];
      TotalCountSnoc(s[1..], x);
    }
  }

  /** Rewriting probability fields changes neither counts, characters nor their shape. */
  lemma {:induction false} SameCountsKeep(r: seq<CharData>, s: seq<CharData>)
    requires SameCounts(r, s)
    ensures TotalCount(r) == TotalCount(s)
    ensures Chars(r) == Chars(s)
    ensures forall c :: CountOf(r, c) == CountOf(s, c)
    ensures Distinct(r) <==> Distinct(s)
    ensures Positive(r) <==> Positive(s)
  {
    if r != [] {
      assert SameCounts(r[1..], s[1..]) by {
        forall i | 0 <= i < |r[1..]|
          ensures r[1..][i].chr == s[1..][i].chr && r[1..][i].count == s[1..][i].count
        {
          assert r[1..][i] == r[i + 1] && s[1..][i] == s[i + 1];
        }
      }
      SameCountsKeep(r[1..], s[1..]);
    }
  }
}
