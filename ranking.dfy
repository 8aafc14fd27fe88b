/**
 * The ranking query behind the EduQuiz leaderboard page: from the stored
 * leaderboard entries keep those of one subject, order them by score with the
 * highest first (ties in stored order), and keep at most the first ten.
 */
module Ranking {

  /** One stored leaderboard record: who, how many percent, in which subject. */
  datatype Entry = Entry(name: string, score: int, subject: string)

  /** The leaderboard never shows more rows than this. */
  const MaxShown: nat := 10

  /** Scores never increase from the first entry to the last. */
  predicate Descending(s: seq<Entry>) {
    forall i, j :: 0 <= i < j < |s| ==> s[i].score >= s[j].score
  }

  /**
   * The entries whose subject is exactly `subject`, in stored order
   * (the `filter` step). Every stored entry of that subject is kept as many
   * times as it is stored, and no other entry is kept.
   */
  function OfSubject(data: seq<Entry>, subject: string): (r: seq<Entry>)
    ensures forall i :: 0 <= i < |r| ==> r[i].subject == subject
    ensures multiset(r) <= multiset(data)
  {
    if data == [] then []
    else
      assert data == [data[0]] + data[1..];
      if data[0].subject == subject then [data[0]] + OfSubject(data[1..], subject)
      else OfSubject(data[1..], subject)
  }

  /**
   * Every stored entry of the subject is kept exactly as many times as it is
   * stored, and no entry of another subject is kept.
   */
  lemma {:induction false} OfSubjectCounts(data: seq<Entry>, subject: string)
    ensures forall e :: multiset(OfSubject(data, subject))[e] == if e.subject == subject then multiset(data)[e] else 0
  {
    if data != [] {
      OfSubjectCounts(data[1..], subject);
      assert data == [data[0]] + data[1..];
    }
  }

  /** The entries of `s` whose score is `v`, in the order of `s`. */
  function WithScore(s: seq<Entry>, v: int): (r: seq<Entry>)
    ensures forall i :: 0 <= i < |r| ==> r[i].score == v && r[i] in s
  {
    if s == [] then []
    else if s[0].score == v then [s[0]] + WithScore(s[1..], v)
    else WithScore(s[1..], v)
  }

  /**
   * Places `e` into `t` just before the first entry whose score is not
   * higher than its own, so that `e` goes ahead of every entry of equal score.
   */
  function Insert(e: Entry, t: seq<Entry>): (r: seq<Entry>)
    ensures |r| == |t| + 1
    ensures multiset(r) == multiset(t) + multiset{e}
  {
    if t == [] || e.score >= t[0].score then [e] + t
    else
      assert t == [t[0]] + t[1..];
      [t[0]] + Insert(e, t[1..])
  }

  /** Inserting into a descending sequence leaves it descending. */
  lemma {:induction false} InsertKeepsDescending(e: Entry, t: seq<Entry>)
    requires Descending(t)
    ensures Descending(Insert(e, t))
  {
    if t != [] && e.score < t[0].score {
      var rest := Insert(e, t[1..]);
      InsertKeepsDescending(e, t[1..]);
      forall x | x in rest ensures x.score <= t[0].score {
        assert x in multiset(rest);
        if x != e {
          assert x in multiset(t[1..]);
          var k :| 0 <= k < |t[1..]| && t[1..][k] == x;
          assert t[k + 1] == x;
        }
      }
    }
  }

  /**
   * A stable sort by descending score: the model of
   * `sort((a, b) => b.score - a.score)`. The comparator's result is used only
   * for its sign, so it is a comparison of two integer scores here.
   */
  function SortByScore(s: seq<Entry>): (r: seq<Entry>)
    ensures |r| == |s|
    ensures multiset(r) == multiset(s)
    ensures Descending(r)
  {
    if s == [] then []
    else
      assert s == [s[0]] + s[1..];
      InsertKeepsDescending(s[0], SortByScore(s[1..]));
      Insert(s[0], SortByScore(s[1..]))
  }

  /** The matching entries, best first, before the cut to ten. */
  function Ranked(data: seq<Entry>, subject: string): (r: seq<Entry>)
    ensures |r| == |OfSubject(data, subject)|
    ensures multiset(r) == multiset(OfSubject(data, subject))
    ensures Descending(r)
  {
    SortByScore(OfSubject(data, subject))
  }

  /** How many rows are shown when `n` entries match: the smaller of `n` and ten. */
  function Shown(n: nat): (k: nat)
    ensures k <= n && k <= MaxShown
    ensures k == n || k == MaxShown
  {
    if n < MaxShown then n else MaxShown
  }

  /**
   * The selection `displayLeaderboard` shows for `subject`: filter, sort by
   * score highest first, slice to at most ten.
   */
  function TopTen(data: seq<Entry>, subject: string): (r: seq<Entry>)
    ensures |r| <= MaxShown
    ensures |r| == Shown(|OfSubject(data, subject)|)
    ensures forall i :: 0 <= i < |r| ==> r[i].subject == subject
    ensures Descending(r)
    ensures multiset(r) <= multiset(OfSubject(data, subject))
  {
    var ranked := Ranked(data, subject);
    PrefixIsSubMultiset(ranked, Shown(|ranked|));
    SameSubject(OfSubject(data, subject), ranked[..Shown(|ranked|)], subject);
    ranked[..Shown(|ranked|)]
  }

  /** Entries drawn from a sequence of one subject are all of that subject. */
  lemma SameSubject(s: seq<Entry>, t: seq<Entry>, subject: string)
    requires forall i :: 0 <= i < |s| ==> s[i].subject == subject
    requires multiset(t) <= multiset(s)
    ensures forall i :: 0 <= i < |t| ==> t[i].subject == subject
  {
    forall i | 0 <= i < |t| ensures t[i].subject == subject {
      assert t[i] in multiset(t);
      assert t[i] in multiset(s);
      var j :| 0 <= j < |s| && s[j] == t[i];
    }
  }

  /** A prefix holds no entry more often than the whole sequence does. */
  lemma PrefixIsSubMultiset(s: seq<Entry>, k: nat)
    requires k <= |s|
    ensures multiset(s[..k]) <= multiset(s)
    ensures multiset(s) - multiset(s[..k]) == multiset(s[k..])
  {
    assert s == s[..k] + s[k..];
  }

  // ----- The sort is stable, and it is the only stable descending sort -----

  /** Inserting `e` adds it ahead of the entries of its own score and touches no other score. */
  lemma {:induction false} InsertKeepsTies(e: Entry, t: seq<Entry>, v: int)
    ensures WithScore(Insert(e, t), v) == if e.score == v then [e] + WithScore(t, v) else WithScore(t, v)
  {
    if t == [] || e.score >= t[0].score {
      assert ([e] + t)[1..] == t;
    } else {
      InsertKeepsTies(e, t[1..], v);
      assert ([t[0]] + Insert(e, t[1..]))[1..] == Insert(e, t[1..]);
    }
  }

  /**
   * Entries of equal score leave the sort in the order they entered it:
   * `Array.prototype.sort` is stable.
   */
  lemma {:induction false} SortKeepsTies(s: seq<Entry>, v: int)
    ensures WithScore(SortByScore(s), v) == WithScore(s, v)
  {
    if s != [] {
      SortKeepsTies(s[1..], v);
      InsertKeepsTies(s[0], SortByScore(s[1..]), v);
    }
  }

  /** The ties of a non-empty sequence: its first entry when that has the score, then those of the rest. */
  lemma TiesOfCons(s: seq<Entry>, v: int)
    requires s != []
    ensures WithScore(s, v) == (if s[0].score == v then [s[0]] else []) + WithScore(s[1..], v)
  {
  }

  /** In a descending sequence no score that occurs is above the first one. */
  lemma TiesBelowHead(s: seq<Entry>, v: int)
    requires s != [] && Descending(s) && WithScore(s, v) != []
    ensures v <= s[0].score
  {
    var x := WithScore(s, v)[0];
    assert x in s && x.score == v;
    var k :| 0 <= k < |s| && s[k] == x;
  }

  /** Two descending sequences that agree on the ties of both first entries start alike. */
  lemma HeadsAgree(a: seq<Entry>, b: seq<Entry>)
    requires a != [] && b != [] && Descending(a) && Descending(b)
    requires WithScore(a, a[0].score) == WithScore(b, a[0].score)
    requires WithScore(a, b[0].score) == WithScore(b, b[0].score)
    ensures a[0] == b[0]
  {
    TiesOfCons(a, a[0].score);
    TiesOfCons(b, b[0].score);
    TiesBelowHead(b, a[0].score);
    TiesBelowHead(a, b[0].score);
    assert WithScore(a, a[0].score)[0] == a[0];
    assert WithScore(b, b[0].score)[0] == b[0];
  }

  /** A descending sequence is fixed by which entries it holds at each score, in which order. */
  lemma {:induction false} DescendingDeterminedByTies(a: seq<Entry>, b: seq<Entry>)
    requires Descending(a) && Descending(b)
    requires forall v :: WithScore(a, v) == WithScore(b, v)
    ensures a == b
    decreases |a|
  {
    if a != [] {
      TiesOfCons(a, a[0].score);
      assert WithScore(b, a[0].score) != [];
    }
    if b != [] {
      TiesOfCons(b, b[0].score);
      assert WithScore(a, b[0].score) != [];
    }
    if a != [] && b != [] {
      assert WithScore(a, a[0].score) == WithScore(b, a[0].score);
      assert WithScore(a, b[0].score) == WithScore(b, b[0].score);
      HeadsAgree(a, b);
      forall v ensures WithScore(a[1..], v) == WithScore(b[1..], v) {
        assert WithScore(a, v) == WithScore(b, v);
        TiesOfCons(a, v);
        TiesOfCons(b, v);
        var head := if a[0].score == v then [a[0]] else [];
        assert (head + WithScore(a[1..], v))[|head|..] == WithScore(a[1..], v);
        assert (head + WithScore(b[1..], v))[|head|..] == WithScore(b[1..], v);
      }
      DescendingDeterminedByTies(a[1..], b[1..]);
      assert a == [a[0]] + a[1..] && b == [b[0]] + b[1..];
    }
  }

  /**
   * Any result that is descending by score and keeps ties in input order is
   * the one `SortByScore` gives: the model does not depend on how the engine
   * sorts, only on the stable-sort contract.
   */
  lemma SortByScoreIsTheStableSort(s: seq<Entry>, r: seq<Entry>)
    requires Descending(r)
    requires forall v :: WithScore(r, v) == WithScore(s, v)
    ensures r == SortByScore(s)
  {
    forall v ensures WithScore(r, v) == WithScore(SortByScore(s), v) {
      SortKeepsTies(s, v);
    }
    DescendingDeterminedByTies(r, SortByScore(s));
  }

  // ----- What the leaderboard shows -----

  /**
   * Filtering a concatenation filters each part and keeps the parts in order;
   * with the one-entry case of the definition this fixes the order of the
   * kept entries as their stored order.
   */
  lemma {:induction false} OfSubjectAppend(a: seq<Entry>, b: seq<Entry>, subject: string)
    ensures OfSubject(a + b, subject) == OfSubject(a, subject) + OfSubject(b, subject)
  {
    if a == [] {
      assert a + b == b;
    } else {
      var head := if a[0].subject == subject then [a[0]] else [];
      assert a == [a[0]] + a[1..];
      assert a + b == [a[0]] + (a[1..] + b);
      calc {
        OfSubject(a + b, subject);
        { OfSubjectCons(a[0], a[1..] + b, subject); }
        head + OfSubject(a[1..] + b, subject);
        { OfSubjectAppend(a[1..], b, subject); }
        head + (OfSubject(a[1..], subject) + OfSubject(b, subject));
        (head + OfSubject(a[1..], subject)) + OfSubject(b, subject);
        { OfSubjectCons(a[0], a[1..], subject); }
        OfSubject(a, subject) + OfSubject(b, subject);
      }
    }
  }

  /** One step of the filter: the first entry is kept or dropped, then the rest is filtered. */
  lemma OfSubjectCons(e: Entry, rest: seq<Entry>, subject: string)
    ensures OfSubject([e] + rest, subject)
            == (if e.subject == subject then [e] else []) + OfSubject(rest, subject)
  {
    assert ([e] + rest)[0] == e && ([e] + rest)[1..] == rest;
  }

  /** Choosing by subject and by score commute. */
  lemma {:induction false} OfSubjectWithScore(data: seq<Entry>, subject: string, v: int)
    ensures WithScore(OfSubject(data, subject), v) == OfSubject(WithScore(data, v), subject)
  {
    if data != [] {
      OfSubjectWithScore(data[1..], subject, v);
      if data[0].subject == subject {
        assert ([data[0]] + OfSubject(data[1..], subject))[1..] == OfSubject(data[1..], subject);
      }
      if data[0].score == v {
        assert ([data[0]] + WithScore(data[1..], v))[1..] == WithScore(data[1..], v);
      }
    }
  }

  /** The ties kept by a prefix are a prefix of the ties of the whole. */
  lemma {:induction false} WithScorePrefix(s: seq<Entry>, k: nat, v: int)
    requires k <= |s|
    ensures WithScore(s[..k], v) <= WithScore(s, v)
  {
    if k > 0 {
      WithScorePrefix(s[1..], k - 1, v);
      assert s[..k][1..] == s[1..][..k - 1];
    }
  }

  /**
   * Entries with equal scores are shown in stored order: those shown at score
   * `v` are the first of the stored entries of this subject and score `v`,
   * and all of them when no more than ten entries match.
   */
  lemma TopTenKeepsTiesInStoredOrder(data: seq<Entry>, subject: string, v: int)
    ensures WithScore(TopTen(data, subject), v) <= OfSubject(WithScore(data, v), subject)
    ensures |OfSubject(data, subject)| <= MaxShown ==>
              WithScore(TopTen(data, subject), v) == OfSubject(WithScore(data, v), subject)
  {
    var ranked := Ranked(data, subject);
    WithScorePrefix(ranked, Shown(|ranked|), v);
    SortKeepsTies(OfSubject(data, subject), v);
    OfSubjectWithScore(data, subject, v);
    assert |OfSubject(data, subject)| <= MaxShown ==> TopTen(data, subject) == ranked;
  }

  /** When no more than ten entries match, every one of them is shown. */
  lemma TopTenKeepsAllWhenFew(data: seq<Entry>, subject: string)
    requires |OfSubject(data, subject)| <= MaxShown
    ensures multiset(TopTen(data, subject)) == multiset(OfSubject(data, subject))
  {
    assert TopTen(data, subject) == Ranked(data, subject);
  }

  /** In a descending sequence, whatever follows position `k` scores no more than what precedes it. */
  lemma DescendingSplit(s: seq<Entry>, k: nat)
    requires Descending(s) && k <= |s|
    ensures forall e: Entry, i :: e in multiset(s[k..]) && 0 <= i < k ==> e.score <= s[i].score
  {
    forall e: Entry, i | e in multiset(s[k..]) && 0 <= i < k
      ensures e.score <= s[i].score
    {
      var j :| 0 <= j < |s[k..]| && s[k..][j] == e;
      assert s[k + j] == e;
    }
  }

  /**
   * Every matching entry that is left out scores no more than every entry
   * that is shown: the rows are the top scores.
   */
  lemma TopTenLeavesOutOnlyLower(data: seq<Entry>, subject: string)
    ensures forall e, i :: e in multiset(OfSubject(data, subject)) - multiset(TopTen(data, subject))
                           && 0 <= i < |TopTen(data, subject)|
                           ==> e.score <= TopTen(data, subject)[i].score
  {
    var ranked := Ranked(data, subject);
    var k := Shown(|ranked|);
    assert TopTen(data, subject) == ranked[..k];
    PrefixIsSubMultiset(ranked, k);
    DescendingSplit(ranked, k);
  }

  /** Three stored entries: two Mathematics ones (90 and 95) and one Science one (88). */
  const ExampleData: seq<Entry> := [Entry("A", 90, "Math"), Entry("B", 95, "Math"), Entry("C", 88, "Sci")]

  /** Filtering the three entries by Mathematics keeps the first two, in stored order. */
  lemma ExampleFilterMath()
    ensures OfSubject(ExampleData, "Math") == [ExampleData[0], ExampleData[1]]
  {
    var a, b, c := ExampleData[0], ExampleData[1], ExampleData[2];
    assert |c.subject| == 3 && |"Math"| == 4;
    assert ExampleData[1..] == [b, c] && [b, c][1..] == [c] && [c][1..] == [];
    assert OfSubject([c], "Math") == [];
    assert OfSubject([b, c], "Math") == [b];
  }

  /** Filtering the three entries by Science keeps only the third. */
  lemma ExampleFilterSci()
    ensures OfSubject(ExampleData, "Sci") == [ExampleData[2]]
  {
    var a, b, c := ExampleData[0], ExampleData[1], ExampleData[2];
    assert |a.subject| == 4 && |b.subject| == 4 && |"Sci"| == 3;
    assert ExampleData[1..] == [b, c] && [b, c][1..] == [c] && [c][1..] == [];
    assert OfSubject([c], "Sci") == [c];
    assert OfSubject([b, c], "Sci") == [c];
  }

  /** Sorting the two Mathematics entries puts 95 ahead of 90. */
  lemma ExampleSortMath()
    ensures SortByScore([ExampleData[0], ExampleData[1]]) == [ExampleData[1], ExampleData[0]]
  {
    var a, b := ExampleData[0], ExampleData[1];
    assert [a, b][1..] == [b] && [b][1..] == [];
    assert Insert(b, []) == [b];
    assert SortByScore([b]) == [b];
    assert [b][1..] == [];
    assert Insert(a, []) == [a];
    assert Insert(a, [b]) == [b, a];
  }

  /** For Mathematics, the two Mathematics entries are shown, 95 ahead of 90. */
  lemma TopTenMathExample()
    ensures TopTen(ExampleData, "Math") == [Entry("B", 95, "Math"), Entry("A", 90, "Math")]
  {
    var a, b := ExampleData[0], ExampleData[1];
    ExampleFilterMath();
    ExampleSortMath();
    assert Ranked(ExampleData, "Math") == [b, a];
    assert [b, a][..Shown(2)] == [b, a];
  }

  /** For Science, only the Science entry is shown; the Mathematics ones are not. */
  lemma TopTenSciExample()
    ensures TopTen(ExampleData, "Sci") == [Entry("C", 88, "Sci")]
  {
    var c := ExampleData[2];
    ExampleFilterSci();
    assert [c][1..] == [];
    assert SortByScore([c]) == [c];
    assert Ranked(ExampleData, "Sci") == [c];
    assert [c][..Shown(1)] == [c];
  }

  /** Two entries of equal score are shown in the order they are stored. */
  lemma TopTenTieExample()
    ensures TopTen([Entry("A", 90, "Math"), Entry("B", 90, "Math")], "Math")
            == [Entry("A", 90, "Math"), Entry("B", 90, "Math")]
  {
    var a, b := Entry("A", 90, "Math"), Entry("B", 90, "Math");
    assert [a, b][1..] == [b] && [b][1..] == [];
    assert OfSubject([b], "Math") == [b];
    assert OfSubject([a, b], "Math") == [a, b];
    assert SortByScore([b]) == [b];
    assert SortByScore([a, b]) == [a, b];
    assert Ranked([a, b], "Math") == [a, b];
    assert Shown(2) == 2 && [a, b][..2] == [a, b];
  }
}
