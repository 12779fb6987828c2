/** The letter-to-group assignment and the legality filter it induces on the word list. */
module Groups {
  import opened Words

  /** The map `letter_to_bucket`: the letter at position i of the puzzle goes to
      group i / groups. Built as `collect` builds a map from the enumerated letters,
      so a later position would overwrite an earlier one. */
  function Buckets(letters: seq<char>, groups: nat): (m: map<char, nat>)
    requires groups > 0
    ensures m.Keys == Chars(letters)
    ensures Distinct(letters) ==> forall i :: 0 <= i < |letters| ==> m[letters[i]] == i / groups
    decreases |letters|
  {
    if letters == [] then map[]
    else
      var n := |letters| - 1;
      Buckets(letters[..n], groups)[letters[n] := n / groups]
  }

  /** A position below a multiple of `g` falls in a block below the block count. */
  lemma DivBelow(i: nat, n: nat, g: nat)
    requires i < n && g > 0 && n % g == 0
    ensures i / g < n / g
  {
  }

  /** With validated input every group id lies in [0, |letters| / groups). */
  lemma BucketsBelowGroupCount(letters: seq<char>, groups: nat)
    requires groups > 0 && |letters| % groups == 0 && Distinct(letters)
    ensures forall c :: c in Buckets(letters, groups) ==> Buckets(letters, groups)[c] < |letters| / groups
  {
    var m := Buckets(letters, groups);
    forall c | c in m
      ensures m[c] < |letters| / groups
    {
      var i :| 0 <= i < |letters| && letters[i] == c;
      DivBelow(i, |letters|, groups);
    }
  }

  /** The filter closure's acceptance condition: every character of the word has a
      group, and no two consecutive characters have the same group. */
  predicate Legal(word: Word, bucket: map<char, nat>)
  {
    (forall i :: 0 <= i < |word| ==> word[i] in bucket) &&
    (forall i :: 0 < i < |word| ==> bucket[word[i - 1]] != bucket[word[i]])
  }

  /** Two puzzle letters sit in the same block of `groups` consecutive positions. */
  predicate SameGroup(letters: seq<char>, groups: nat, a: char, b: char)
    requires groups > 0
  {
    exists i, j :: 0 <= i < |letters| && 0 <= j < |letters| && letters[i] == a && letters[j] == b && i / groups == j / groups
  }

  /** For distinct letters the group ids of two puzzle letters agree exactly when
      their positions share a block. */
  lemma SameGroupIff(letters: seq<char>, groups: nat, a: char, b: char)
    requires groups > 0 && Distinct(letters) && a in letters && b in letters
    ensures SameGroup(letters, groups, a, b) <==> Buckets(letters, groups)[a] == Buckets(letters, groups)[b]
  {
  }

  /** A word passes the filter exactly when all its characters are puzzle letters and
      no two adjacent characters come from the same block of the letter sequence. */
  lemma LegalIffGroups(word: Word, letters: seq<char>, groups: nat)
    requires groups > 0 && Distinct(letters)
    ensures Legal(word, Buckets(letters, groups)) <==>
      (forall k :: 0 <= k < |word| ==> word[k] in letters) &&
      (forall k :: 0 < k < |word| ==> !SameGroup(letters, groups, word[k - 1], word[k]))
  {
  }

  /** The filter closure: look up the first character's group, then walk the rest of the
      word comparing each group with the previous one, rejecting on the first unmapped
      character or repeated group. The word list holds no empty word, so `unwrap` is safe. */
  method IsLegal(word: Word, bucket: map<char, nat>) returns (legal: bool)
    requires word != []
    ensures legal == Legal(word, bucket)
  {
    if word[0] !in bucket {
      return false;
    }
    var prevBucket := bucket[word[0]];
    var i := 1;
    while i < |word|
      invariant 1 <= i <= |word|
      invariant forall k :: 0 <= k < i ==> word[k] in bucket
      invariant forall k :: 0 < k < i ==> bucket[word[k - 1]] != bucket[word[k]]
      invariant prevBucket == bucket[word[i - 1]]
    {
      var ch := word[i];
      if ch !in bucket {
        return false;
      }
      var b := bucket[ch];
      if b == prevBucket {
        return false;
      }
      prevBucket := b;
      i := i + 1;
    }
    return true;
  }

  /** `legal_words`: the words of the word list that pass the filter. */
  method LegalWords(wordList: set<Word>, bucket: map<char, nat>) returns (legal: set<Word>)
    requires NonEmptyWords(wordList)
    ensures forall w :: w in legal <==> w in wordList && Legal(w, bucket)
  {
    legal := {};
    var rest := wordList;
    while rest != {}
      invariant rest <= wordList
      invariant forall w :: w in legal <==> w in wordList - rest && Legal(w, bucket)
      decreases |rest|
    {
      var w :| w in rest;
      var ok := IsLegal(w, bucket);
      if ok {
        legal := legal + {w};
      }
      rest := rest - {w};
    }
  }
}
