/** The chain solver: the bounded backtracking search `solve_recursive` and the
    iterative-deepening loop of `main` that calls it with bounds 1, 2, 3, ... */
module Solver {
  import opened Words
  import opened Groups
  import opened Ranking

  /** The end-to-start rule: `w` begins with the last letter of `prev`. */
  predicate Links(prev: Word, w: Word)
  {
    prev != [] && w != [] && w[0] == LastChar(prev)
  }

  /** Every word after the first begins with the last letter of the word before it. */
  predicate Linked(ws: seq<Word>)
  {
    forall i :: 0 < i < |ws| ==> Links(ws[i - 1], ws[i])
  }

  /** `w` may be pushed onto `chain`: the chain is empty, or `w` links to its last word. */
  predicate CanFollow(chain: seq<Word>, w: Word)
  {
    chain == [] || Links(Last(chain), w)
  }

  /** `ext` is a sequence of pool words that can be pushed onto `chain` one after another. */
  predicate ValidExtension(chain: seq<Word>, ext: seq<Word>, pool: set<Word>)
  {
    (forall i :: 0 <= i < |ext| ==> ext[i] in pool) &&
    (ext != [] ==> CanFollow(chain, ext[0])) &&
    Linked(ext)
  }

  /** Pushing `ext` onto `chain` keeps the chain within `bound` words and covers `remaining`. */
  predicate Solves(chain: seq<Word>, ext: seq<Word>, remaining: set<char>, bound: nat, pool: set<Word>)
  {
    |chain| + |ext| <= bound && ValidExtension(chain, ext, pool) && remaining <= Letters(ext)
  }

  /** No extension of `chain` solves the search frame. */
  ghost predicate NoSolution(chain: seq<Word>, remaining: set<char>, bound: nat, pool: set<Word>)
  {
    forall ext :: !Solves(chain, ext, remaining, bound, pool)
  }

  /** `w` is the word a frame with letters left pushes for good: it may be pushed, and every
      word that may be pushed and ranks before it leads to no solution. */
  ghost predicate FirstSolvable(chain: seq<Word>, w: Word, remaining: set<char>, bound: nat, pool: set<Word>)
  {
    remaining != {} && w in pool && CanFollow(chain, w) &&
    forall c {:trigger RankedLess(Entry(c, remaining), Entry(w, remaining))} ::
      c in pool && CanFollow(chain, c) && RankedLess(Entry(c, remaining), Entry(w, remaining)) ==>
        NoSolution(chain + [c], remaining - Chars(c), bound, pool)
  }

  /** Every word of `ext` was pushed by a frame that still had letters left, and is the
      first word in ranked order of that frame that leads to a solution. */
  ghost predicate RankedFirst(chain: seq<Word>, ext: seq<Word>, remaining: set<char>, bound: nat, pool: set<Word>)
    decreases |ext|
  {
    ext == [] ||
    (FirstSolvable(chain, ext[0], remaining, bound, pool) &&
     RankedFirst(chain + [ext[0]], ext[1..], remaining - Chars(ext[0]), bound, pool))
  }

  /** The first word of a ranked-first extension is a candidate of its frame, and every
      candidate ranked before it leads to no solution. */
  lemma RankedFirstHead(chain: seq<Word>, ext: seq<Word>, remaining: set<char>, bound: nat, pool: set<Word>)
    requires chain != [] ==> Last(chain) != []
    requires NonEmptyWords(pool)
    requires ext != [] && RankedFirst(chain, ext, remaining, bound, pool)
    ensures remaining != {}
    ensures ext[0] in Candidates(chain, pool)
    ensures forall c :: c in Candidates(chain, pool) && RankedLess(Entry(c, remaining), Entry(ext[0], remaining)) ==>
      NoSolution(chain + [c], remaining - Chars(c), bound, pool)
  {
  }

  /** A frame has at most one solution that is first in ranked order at every push, so the
      search's answer is fully determined by its inputs. */
  lemma {:induction false} RankedFirstUnique(chain: seq<Word>, e1: seq<Word>, e2: seq<Word>, remaining: set<char>, bound: nat, pool: set<Word>)
    requires Solves(chain, e1, remaining, bound, pool) && RankedFirst(chain, e1, remaining, bound, pool)
    requires Solves(chain, e2, remaining, bound, pool) && RankedFirst(chain, e2, remaining, bound, pool)
    ensures e1 == e2
    decreases |e1|
  {
    if e1 != [] && e2 != [] {
      var w1, w2 := e1[0], e2[0];
      SolvesStep(chain, e1, remaining, bound, pool);
      SolvesStep(chain, e2, remaining, bound, pool);
      RankedLessStrictTotal(Entry(w1, remaining), Entry(w2, remaining), Entry(w1, remaining));
      assert w1 == w2;
      RankedFirstUnique(chain + [w1], e1[1..], e2[1..], remaining - Chars(w1), bound, pool);
      assert e1 == [w1] + e1[1..] && e2 == [w2] + e2[1..];
    }
  }

  /** A frame is solved by a non-empty extension exactly when its first word may be pushed
      and the rest solves the frame that push creates, with the first word's letters removed. */
  lemma SolvesStep(chain: seq<Word>, ext: seq<Word>, remaining: set<char>, bound: nat, pool: set<Word>)
    requires ext != []
    ensures Solves(chain, ext, remaining, bound, pool) <==>
      ext[0] in pool && CanFollow(chain, ext[0]) &&
      Solves(chain + [ext[0]], ext[1..], remaining - Chars(ext[0]), bound, pool)
  {
  }

  /** A frame with letters left has no solution when no word that may be pushed leads to one. */
  lemma NoSolutionWhenEveryCandidateFails(chain: seq<Word>, remaining: set<char>, bound: nat, pool: set<Word>)
    requires remaining != {}
    requires forall c :: c in pool && CanFollow(chain, c) ==> NoSolution(chain + [c], remaining - Chars(c), bound, pool)
    ensures NoSolution(chain, remaining, bound, pool)
  {
    forall ext
      ensures !Solves(chain, ext, remaining, bound, pool)
    {
      if ext != [] {
        SolvesStep(chain, ext, remaining, bound, pool);
      }
    }
  }

  /** Success of the frame created by pushing `choice` is success of the frame below it. */
  lemma SolvedAfterPush(words: seq<Word>, choice: Word, chain: seq<Word>, remaining: set<char>, maxWords: nat, pool: set<Word>)
    requires choice in pool && CanFollow(words, choice)
    requires |words + [choice]| <= |chain| && chain[..|words| + 1] == words + [choice]
    requires Solves(words + [choice], chain[|words| + 1..], remaining - Chars(choice), maxWords, pool)
    ensures |words| < |chain| && chain[..|words|] == words && chain[|words|] == choice
    ensures Solves(words, chain[|words|..], remaining, maxWords, pool)
  {
  }

  /** Every candidate ranked before position `i` of an ascending listing sits at an
      index below `i`, so it has been tried already. */
  lemma EarlierCandidatesFail(words: seq<Word>, ranked: seq<Ranked>, i: nat, candidates: set<Word>, remaining: set<char>, maxWords: nat, pool: set<Word>)
    requires Ascending(ranked) && i < |ranked|
    requires forall e :: e in ranked <==> e.word in candidates && e.score == Rank(e.word, remaining)
    requires forall k :: 0 <= k < i ==>
      NoSolution(words + [ranked[k].word], remaining - Chars(ranked[k].word), maxWords, pool)
    ensures forall c :: c in candidates && RankedLess(Entry(c, remaining), ranked[i]) ==>
      NoSolution(words + [c], remaining - Chars(c), maxWords, pool)
  {
    forall c | c in candidates && RankedLess(Entry(c, remaining), ranked[i])
      ensures NoSolution(words + [c], remaining - Chars(c), maxWords, pool)
    {
      assert Entry(c, remaining) in ranked;
      var k :| 0 <= k < |ranked| && ranked[k] == Entry(c, remaining);
      RankedLessStrictTotal(ranked[k], ranked[i], ranked[k]);
      assert k < i;
    }
  }

  /** A successful push of a word whose better-ranked rivals all fail extends the ranked-first
      property of the frame above to the frame that pushed it. */
  lemma PushedFirst(words: seq<Word>, choice: Word, chain: seq<Word>, candidates: set<Word>, remaining: set<char>, maxWords: nat, pool: set<Word>)
    requires remaining != {}
    requires forall w :: w in pool ==> (w in candidates <==> CanFollow(words, w))
    requires candidates <= pool && choice in candidates
    requires forall c :: c in candidates && RankedLess(Entry(c, remaining), Entry(choice, remaining)) ==>
      NoSolution(words + [c], remaining - Chars(c), maxWords, pool)
    requires |words| < |chain| && chain[|words|] == choice
    requires RankedFirst(words + [choice], chain[|words| + 1..], remaining - Chars(choice), maxWords, pool)
    ensures RankedFirst(words, chain[|words|..], remaining, maxWords, pool)
  {
    assert chain[|words|..][1..] == chain[|words| + 1..];
  }

  /** What a frame returns when the recursive call after pushing ranked candidate `i` succeeds. */
  lemma SuccessfulPush(words: seq<Word>, ranked: seq<Ranked>, i: nat, candidates: set<Word>, chain: seq<Word>, remaining: set<char>, maxWords: nat, pool: set<Word>)
    requires remaining != {}
    requires candidates <= pool && forall w :: w in pool ==> (w in candidates <==> CanFollow(words, w))
    requires Ascending(ranked) && i < |ranked|
    requires forall e :: e in ranked <==> e.word in candidates && e.score == Rank(e.word, remaining)
    requires forall k :: 0 <= k < i ==>
      NoSolution(words + [ranked[k].word], remaining - Chars(ranked[k].word), maxWords, pool)
    requires |words + [ranked[i].word]| <= |chain| && chain[..|words| + 1] == words + [ranked[i].word]
    requires Solves(words + [ranked[i].word], chain[|words| + 1..], remaining - Chars(ranked[i].word), maxWords, pool)
    requires RankedFirst(words + [ranked[i].word], chain[|words| + 1..], remaining - Chars(ranked[i].word), maxWords, pool)
    ensures |words| <= |chain| && chain[..|words|] == words
    ensures Solves(words, chain[|words|..], remaining, maxWords, pool)
    ensures RankedFirst(words, chain[|words|..], remaining, maxWords, pool)
  {
    var choice := ranked[i].word;
    assert ranked[i] in ranked && ranked[i] == Entry(choice, remaining);
    SolvedAfterPush(words, choice, chain, remaining, maxWords, pool);
    EarlierCandidatesFail(words, ranked, i, candidates, remaining, maxWords, pool);
    PushedFirst(words, choice, chain, candidates, remaining, maxWords, pool);
  }

  /** A failed push of ranked candidate `i` extends the run of candidates tried without success. */
  lemma FailedPush(words: seq<Word>, ranked: seq<Ranked>, i: nat, remaining: set<char>, maxWords: nat, pool: set<Word>)
    requires i < |ranked|
    requires forall k :: 0 <= k < i ==>
      NoSolution(words + [ranked[k].word], remaining - Chars(ranked[k].word), maxWords, pool)
    requires NoSolution(words + [ranked[i].word], remaining - Chars(ranked[i].word), maxWords, pool)
    ensures forall k :: 0 <= k < i + 1 ==>
      NoSolution(words + [ranked[k].word], remaining - Chars(ranked[k].word), maxWords, pool)
  {
  }

  /** Once every ranked candidate has failed, the frame has no solution. */
  lemma EveryRankedCandidateFailed(words: seq<Word>, ranked: seq<Ranked>, candidates: set<Word>, remaining: set<char>, maxWords: nat, pool: set<Word>)
    requires remaining != {}
    requires forall w :: w in pool ==> (w in candidates <==> CanFollow(words, w))
    requires forall e :: e in ranked <==> e.word in candidates && e.score == Rank(e.word, remaining)
    requires forall k :: 0 <= k < |ranked| ==>
      NoSolution(words + [ranked[k].word], remaining - Chars(ranked[k].word), maxWords, pool)
    ensures NoSolution(words, remaining, maxWords, pool)
  {
    forall c | c in pool && CanFollow(words, c)
      ensures NoSolution(words + [c], remaining - Chars(c), maxWords, pool)
    {
      assert Entry(c, remaining) in ranked;
    }
    NoSolutionWhenEveryCandidateFails(words, remaining, maxWords, pool);
  }

  /** The words `rank_words` is given: all legal words for an empty chain, otherwise those
      beginning with the last letter of the last word pushed. */
  function Candidates(words: seq<Word>, pool: set<Word>): (c: set<Word>)
    requires words != [] ==> Last(words) != []
    requires NonEmptyWords(pool)
    ensures c <= pool
    ensures words == [] ==> c == pool
    ensures forall w :: w in pool ==> (w in c <==> CanFollow(words, w))
  {
    if words == [] then pool
    else
      var ch := LastChar(Last(words));
      set w | w in pool && w[0] == ch
  }

  /** `solve_recursive`. `words` is the stack on entry and `chain` the stack on return.
      On success the words pushed on top of the untouched entry stack solve the frame, and
      each was pushed by a frame with letters left as the first candidate, in ranked order,
      that leads to a solution (so nothing is pushed once the letters are covered); on failure the
      stack is exactly as on entry and no extension of it solves the frame. */
  method SolveRecursive(words: seq<Word>, remaining: set<char>, maxWords: nat, pool: set<Word>)
    returns (found: bool, chain: seq<Word>)
    requires |words| <= maxWords
    requires words != [] ==> Last(words) != []
    requires NonEmptyWords(pool)
    ensures found ==> |words| <= |chain| && chain[..|words|] == words
    ensures found ==> Solves(words, chain[|words|..], remaining, maxWords, pool)
    ensures !found ==> chain == words && NoSolution(words, remaining, maxWords, pool)
    ensures remaining == {} ==> found && chain == words
    ensures found ==> RankedFirst(words, chain[|words|..], remaining, maxWords, pool)
    decreases maxWords - |words|
  {
    chain := words;
    if remaining == {} {
      return true, chain;
    }
    if |chain| == maxWords {
      return false, chain;
    }

    var candidates := Candidates(chain, pool);
    var ranked := RankWords(candidates, remaining);

    var i := 0;
    while i < |ranked|
      invariant 0 <= i <= |ranked|
      invariant chain == words
      invariant forall k :: 0 <= k < i ==>
        NoSolution(words + [ranked[k].word], remaining - Chars(ranked[k].word), maxWords, pool)
    {
      var choice := ranked[i].word;
      assert ranked[i] in ranked;
      chain := chain + [choice];
      var newRemaining := remaining - Chars(choice);
      var ok, after := SolveRecursive(chain, newRemaining, maxWords, pool);
      if ok {
        SuccessfulPush(words, ranked, i, candidates, after, remaining, maxWords, pool);
        return true, after;
      }
      FailedPush(words, ranked, i, remaining, maxWords, pool);
      chain := after[..|after| - 1];
      i := i + 1;
    }

    EveryRankedCandidateFailed(words, ranked, candidates, remaining, maxWords, pool);
    return false, chain;
  }

  /** The puzzle's answer in its own terms: legal words of the word list, chained end to
      start, together using every puzzle letter. */
  predicate IsSolution(chain: seq<Word>, letters: seq<char>, groups: nat, wordList: set<Word>)
  {
    groups > 0 &&
    (forall i :: 0 <= i < |chain| ==> chain[i] in wordList && Legal(chain[i], Buckets(letters, groups))) &&
    Linked(chain) &&
    Chars(letters) <= Letters(chain)
  }

  /** A solution uses the puzzle letters and nothing else: the letters of its words
      together are exactly the letter set. */
  lemma SolutionUsesExactlyTheLetters(chain: seq<Word>, letters: seq<char>, groups: nat, wordList: set<Word>)
    requires IsSolution(chain, letters, groups, wordList)
    ensures Letters(chain) == Chars(letters)
  {
    forall c | c in Letters(chain)
      ensures c in Chars(letters)
    {
      LettersIff(chain, c);
      var i :| 0 <= i < |chain| && c in chain[i];
      var k :| 0 <= k < |chain[i]| && chain[i][k] == c;
      assert c in Buckets(letters, groups);
    }
  }

  /** The frame `main` starts at bound `bound` is solved exactly by the solutions of at most
      `bound` words. */
  lemma SolvesFromEmptyIffSolution(ext: seq<Word>, letters: seq<char>, groups: nat, wordList: set<Word>, pool: set<Word>, bound: nat)
    requires groups > 0
    requires forall w :: w in pool <==> w in wordList && Legal(w, Buckets(letters, groups))
    ensures Solves([], ext, Chars(letters), bound, pool) <==> IsSolution(ext, letters, groups, wordList) && |ext| <= bound
  {
  }

  /** The legal pool `legal_words` the search draws from. */
  ghost function LegalPool(letters: seq<char>, groups: nat, wordList: set<Word>): set<Word>
    requires groups > 0
  {
    set w | w in wordList && Legal(w, Buckets(letters, groups))
  }

  /** The answer of the search from the empty stack, read against `LegalPool` and its own length. */
  lemma FoundInLegalPool(chain: seq<Word>, letters: seq<char>, groups: nat, wordList: set<Word>, pool: set<Word>, bound: nat)
    requires groups > 0
    requires forall w :: w in pool <==> w in wordList && Legal(w, Buckets(letters, groups))
    requires |chain| == bound
    requires RankedFirst([], chain[0..], Chars(letters), bound, pool)
    ensures RankedFirst([], chain, Chars(letters), |chain|, LegalPool(letters, groups, wordList))
  {
    assert pool == LegalPool(letters, groups, wordList);
    assert chain[0..] == chain;
  }

  /** The outer loop of `main` with bounds 1, 2, ..., `limit`: `main` counts upward
      without end, which never stops when no chain exists. The answer, if any, has the
      fewest words of all solutions, and at each push it took the first word in ranked order
      that leads to a solution within that many words; `None` means no solution has `limit` words or fewer. */
  method SolvePuzzle(letters: seq<char>, groups: nat, wordList: set<Word>, limit: nat)
    returns (solution: Option<seq<Word>>)
    requires letters != [] && groups > 0 && |letters| % groups == 0 && Distinct(letters)
    requires NonEmptyWords(wordList)
    ensures solution.Some? ==> IsSolution(solution.value, letters, groups, wordList) && |solution.value| <= limit
    ensures solution.Some? ==> forall other :: IsSolution(other, letters, groups, wordList) ==> |solution.value| <= |other|
    ensures solution.Some? ==>
      RankedFirst([], solution.value, Chars(letters), |solution.value|, LegalPool(letters, groups, wordList))
    ensures solution.None? ==> forall other :: IsSolution(other, letters, groups, wordList) ==> limit < |other|
  {
    var letterToBucket := Buckets(letters, groups);
    var legalWords := LegalWords(wordList, letterToBucket);

    var maxWords := 1;
    assert letters[0] in Chars(letters);
    while maxWords <= limit
      invariant 1 <= maxWords <= limit + 1 || (limit == 0 && maxWords == 1)
      invariant forall other :: IsSolution(other, letters, groups, wordList) ==> maxWords <= |other|
    {
      var remainingLetters := Chars(letters);
      var found, chain := SolveRecursive([], remainingLetters, maxWords, legalWords);
      if found {
        SolvesFromEmptyIffSolution(chain, letters, groups, wordList, legalWords, maxWords);
        FoundInLegalPool(chain, letters, groups, wordList, legalWords, maxWords);
        return Some(chain);
      }
      forall other | IsSolution(other, letters, groups, wordList)
        ensures maxWords + 1 <= |other|
      {
        SolvesFromEmptyIffSolution(other, letters, groups, wordList, legalWords, maxWords);
      }
      maxWords := maxWords + 1;
    }
    return None;
  }
}
