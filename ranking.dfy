/** The ranking heuristic `rank_words`: every candidate is scored by how many of the
    remaining letters it leaves uncovered, and the (score, word) pairs are kept in a
    `BTreeSet`, so they are visited by ascending score, ties broken by the word. */
module Ranking {
  import opened Words

  /** `remaining.len()` minus the number of distinct remaining letters the word contains. */
  function Rank(w: Word, remaining: set<char>): nat
  {
    var covered := set ch | ch in w && ch in remaining;
    assert remaining == (remaining - covered) + covered;
    |remaining| - |covered|
  }

  /** The score is the number of remaining letters the word leaves uncovered: it lies
      between 0 and the number of remaining letters, and is 0 exactly when the word
      covers all of them. */
  lemma RankCountsUncovered(w: Word, remaining: set<char>)
    ensures Rank(w, remaining) == |remaining - Chars(w)|
    ensures Rank(w, remaining) <= |remaining|
    ensures Rank(w, remaining) == 0 <==> remaining <= Chars(w)
  {
    var covered := set ch | ch in w && ch in remaining;
    var uncovered := remaining - Chars(w);
    assert covered == remaining * Chars(w);
    assert remaining == uncovered + covered && uncovered * covered == {};
    assert |uncovered| == 0 ==> uncovered == {};
  }

  /** Lexicographic order on words, the order of Rust's `str` (byte-wise UTF-8 order
      agrees with the order of code points); a proper prefix comes first. */
  predicate WordLess(a: Word, b: Word)
    decreases |a|
  {
    if a == [] then b != []
    else b != [] && (a[0] < b[0] || (a[0] == b[0] && WordLess(a[1..], b[1..])))
  }

  lemma {:induction false} WordLessIrreflexive(a: Word)
    ensures !WordLess(a, a)
    decreases |a|
  {
    if a != [] {
      WordLessIrreflexive(a[1..]);
    }
  }

  lemma {:induction false} WordLessTransitive(a: Word, b: Word, c: Word)
    requires WordLess(a, b) && WordLess(b, c)
    ensures WordLess(a, c)
    decreases |a|
  {
    if a != [] && a[0] == b[0] && b[0] == c[0] {
      WordLessTransitive(a[1..], b[1..], c[1..]);
    }
  }

  lemma {:induction false} WordLessTotal(a: Word, b: Word)
    requires a != b
    ensures WordLess(a, b) || WordLess(b, a)
    decreases |a|
  {
    if a != [] && b != [] && a[0] == b[0] {
      assert a == [a[0]] + a[1..] && b == [b[0]] + b[1..];
      WordLessTotal(a[1..], b[1..]);
    }
  }

  /** One element of the ordered set of (score, word) pairs that `rank_words` collects. */
  datatype Ranked = Ranked(score: nat, word: Word)

  /** The pair `rank_words` forms for one candidate. */
  function Entry(w: Word, remaining: set<char>): Ranked
  {
    Ranked(Rank(w, remaining), w)
  }

  /** The tuple order of `(usize, &str)`: score first, then the word. */
  predicate RankedLess(x: Ranked, y: Ranked)
  {
    x.score < y.score || (x.score == y.score && WordLess(x.word, y.word))
  }

  /** The tuple order is a strict total order, so a set of pairs has one ascending listing. */
  lemma RankedLessStrictTotal(x: Ranked, y: Ranked, z: Ranked)
    ensures !RankedLess(x, x)
    ensures RankedLess(x, y) && RankedLess(y, z) ==> RankedLess(x, z)
    ensures x != y ==> RankedLess(x, y) || RankedLess(y, x)
  {
    WordLessIrreflexive(x.word);
    if RankedLess(x, y) && RankedLess(y, z) && x.score == y.score == z.score {
      WordLessTransitive(x.word, y.word, z.word);
    }
    if x != y && x.score == y.score {
      WordLessTotal(x.word, y.word);
    }
  }

  /** Strictly ascending in the tuple order: the iteration order of a `BTreeSet`. */
  predicate Ascending(s: seq<Ranked>)
  {
    forall i, j :: 0 <= i < j < |s| ==> RankedLess(s[i], s[j])
  }

  /** Insertion of a new element into the ordered set. */
  function Insert(s: seq<Ranked>, x: Ranked): (r: seq<Ranked>)
    requires Ascending(s) && x !in s
    ensures Ascending(r)
    ensures |r| == |s| + 1
    ensures forall e :: e in r <==> e in s || e == x
  {
    if s == [] then [x]
    else if RankedLess(x, s[0]) then
      assert forall j :: 0 < j < |s| ==> RankedLess(x, s[j]) by {
        forall j | 0 < j < |s| ensures RankedLess(x, s[j]) {
          RankedLessStrictTotal(x, s[0], s[j]);
        }
      }
      [x] + s
    else
      RankedLessStrictTotal(x, s[0], s[0]);
      var rest := Insert(s[1..], x);
      assert forall j :: 0 <= j < |rest| ==> RankedLess(s[0], rest[j]) by {
        forall j | 0 <= j < |rest| ensures RankedLess(s[0], rest[j]) {
          assert rest[j] in rest;
        }
      }
      [s[0]] + rest
  }

  /** `rank_words`: score every candidate and collect the pairs into the ordered set.
      The result lists each candidate once, with its score, in ascending tuple order. */
  method RankWords(words: set<Word>, remaining: set<char>) returns (ranked: seq<Ranked>)
    ensures Ascending(ranked)
    ensures |ranked| == |words|
    ensures forall e :: e in ranked <==> e.word in words && e.score == Rank(e.word, remaining)
  {
    ranked := [];
    var rest := words;
    while rest != {}
      invariant rest <= words
      invariant Ascending(ranked)
      invariant |ranked| + |rest| == |words|
      invariant forall e :: e in ranked <==> e.word in words - rest && e.score == Rank(e.word, remaining)
      decreases |rest|
    {
      var w :| w in rest;
      ranked := Insert(ranked, Ranked(Rank(w, remaining), w));
      rest := rest - {w};
    }
  }

  /** In an ascending listing the first element is below every other one. */
  lemma AscendingFirstIsLeast(s: seq<Ranked>, e: Ranked)
    requires Ascending(s) && e in s
    ensures e == s[0] || RankedLess(s[0], e)
  {
  }

  /** A strictly ascending listing repeats no element, so it has as many entries as the
      set of pairs it lists. */
  lemma {:induction false} AscendingCard(s: seq<Ranked>)
    requires Ascending(s)
    ensures |set e | e in s| == |s|
    decreases |s|
  {
    if s != [] {
      AscendingCard(s[1..]);
      RankedLessStrictTotal(s[0], s[0], s[0]);
      assert s[0] !in s[1..];
      assert (set e | e in s) == {s[0]} + (set e | e in s[1..]);
    }
  }

  /** Two ascending listings of the same pairs have the same length. */
  lemma AscendingSameLength(a: seq<Ranked>, b: seq<Ranked>)
    requires Ascending(a) && Ascending(b)
    requires forall e :: e in a <==> e in b
    ensures |a| == |b|
  {
    AscendingCard(a);
    AscendingCard(b);
    assert (set e | e in a) == (set e | e in b);
  }

  /** An element past the head of one listing is past the head of any other ascending
      listing of the same pairs with the same head. */
  lemma InTail(a: seq<Ranked>, b: seq<Ranked>, e: Ranked)
    requires Ascending(b) && a != [] && b != [] && a[0] == b[0]
    requires forall x :: x in a <==> x in b
    requires e in b[1..]
    ensures e in a[1..]
  {
    var k :| 0 <= k < |b| - 1 && b[1..][k] == e;
    assert b[k + 1] == e && e in b && RankedLess(b[0], b[k + 1]);
    var m :| 0 <= m < |a| && a[m] == e;
    RankedLessStrictTotal(e, e, e);
    assert m > 0 && a[1..][m - 1] == e;
  }

  /** A set of pairs has exactly one ascending listing, so the order in which the
      candidates are tried is fully determined by the candidates and their scores. */
  lemma {:induction false} AscendingUnique(a: seq<Ranked>, b: seq<Ranked>)
    requires Ascending(a) && Ascending(b)
    requires forall e :: e in a <==> e in b
    ensures a == b
    decreases |a|
  {
    AscendingSameLength(a, b);
    if a != [] {
      AscendingFirstIsLeast(b, a[0]);
      AscendingFirstIsLeast(a, b[0]);
      RankedLessStrictTotal(a[0], b[0], a[0]);
      assert a[0] == b[0];
      forall e ensures e in a[1..] <==> e in b[1..] {
        if e in b[1..] {
          InTail(a, b, e);
        }
        if e in a[1..] {
          InTail(b, a, e);
        }
      }
      AscendingUnique(a[1..], b[1..]);
      assert a == [a[0]] + a[1..] && b == [b[0]] + b[1..];
    }
  }
}
