/** Words of the dictionary and the letters they use.
    A word is a sequence of characters; the word list never holds the empty word. */
module Words {

  type Word = seq<char>

  datatype Option<T> = None | Some(value: T)

  /** The set of distinct characters of a word. */
  function Chars(w: seq<char>): set<char>
  {
    set c | c in w
  }

  /** The last character of a non-empty word. */
  function LastChar(w: Word): char
    requires w != []
  {
    w[|w| - 1]
  }

  /** The most recently pushed word of a non-empty chain. */
  function Last(ws: seq<Word>): Word
    requires ws != []
  {
    ws[|ws| - 1]
  }

  /** Every letter used by some word of a chain. */
  function Letters(ws: seq<Word>): set<char>
  {
    if ws == [] then {} else Chars(ws[0]) + Letters(ws[1..])
  }

  /** A letter is covered by a chain exactly when one of its words contains it. */
  lemma {:induction false} LettersIff(ws: seq<Word>, c: char)
    ensures c in Letters(ws) <==> exists i :: 0 <= i < |ws| && c in ws[i]
  {
    if ws != [] {
      LettersIff(ws[1..], c);
      if c in Letters(ws[1..]) {
        var i :| 0 <= i < |ws[1..]| && c in ws[1..][i];
        assert c in ws[i + 1];
      }
      if exists i :: 0 <= i < |ws| && c in ws[i] {
        var i :| 0 <= i < |ws| && c in ws[i];
        if i > 0 {
          assert c in ws[1..][i - 1];
        }
      }
    }
  }

  /** The word list and everything filtered from it hold no empty word
      (blank lines are dropped when the list is loaded). */
  predicate NonEmptyWords(ws: set<Word>)
  {
    forall w :: w in ws ==> w != []
  }

  /** No character occurs twice (the puzzle letters are validated to be so). */
  predicate Distinct(s: seq<char>)
  {
    forall i, j :: 0 <= i < j < |s| ==> s[i] != s[j]
  }
}
