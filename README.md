# Letter-boxed solver: the search engine in Dafny

This project models the search engine of a solver for "letter box" word puzzles.
The input is a sequence of distinct letters cut into consecutive groups of `groups` letters.
The solver looks for the fewest dictionary words that together use every letter.
Each word must also obey two rules:

- no two adjacent letters in a word come from the same group;
- each word after the first begins with the last letter of the word before it.

The engine has four parts, all in `src/main.rs`:

- **Group assignment** (`Groups.Buckets`). The letter at position `i` gets group id `i / groups`.
- **Legality filter** (`Groups.IsLegal`, `Groups.LegalWords`). A dictionary word is kept only if
  every character is a puzzle letter and consecutive characters have different group ids.
- **Backtracking search** (`Solver.SolveRecursive`). This models `solve_recursive`.
  - The chain of chosen words is a stack: the method takes it in as `words` and hands it back as `chain`.
  - Candidates come from `Solver.Candidates`, which applies the chaining rule.
  - `Ranking.RankWords` (the source's `rank_words`) orders them by the number of remaining
    letters each leaves uncovered, then by the word.
  - Each candidate is pushed, the search recurses, and the candidate is popped if that fails.
  - The first success wins.
- **Iterative deepening** (`Solver.SolvePuzzle`). This is the loop at the end of `main`.
  It tries bounds 1, 2, 3, … up to a caller-supplied `limit`.

There are four modules, one per file: `Words` (words.dfy), `Groups` (groups.dfy),
`Ranking` (ranking.dfy) and `Solver` (solver.dfy).

## What is proved

- **Soundness.** When the search succeeds:
  - the entry stack is left untouched at the bottom of the result;
  - every word pushed is a legal word and links to the one before it;
  - the pushed words cover the remaining letters;
  - the stack respects the bound.
- **Backtracking and completeness.** When the search fails, the stack is exactly as it was on
  entry, and no extension of it solves that search frame.
- **Ranked order.** Every word of a successful answer was pushed by a frame that still had
  letters left (`Solver.RankedFirst`). It was a candidate of that frame, and every candidate
  ranked before it was tried and led to no solution. So the search stops at the first success.
  At most one extension has this property (`Solver.RankedFirstUnique`), so the answer is fully
  determined by the inputs. The ranked order itself is fully determined by the candidates
  (`Ranking.AscendingUnique`).
- **Fewest words.** If the driver returns a chain, it is a solution in the puzzle's own terms
  (`Solver.IsSolution`) and no solution has fewer words. It is also the ranked-first solution
  over the legal pool at its own length. `None` means no solution has `limit` words or fewer.

## Model

| member | source | states |
|---|---|---|
| `Groups.Buckets` | src/main.rs:59 | The map has exactly the puzzle letters as keys. When the letters are distinct, the letter at position `i` maps to `i / groups`. |
| `Groups.BucketsBelowGroupCount` | src/main.rs:55-59 | With validated input (positive group size, letter count divisible by it, distinct letters), every group id is below `|letters| / groups`. |
| `Groups.SameGroupIff` | src/main.rs:59 | Two puzzle letters have the same group id exactly when their positions fall in the same block of `groups` consecutive positions. |
| `Groups.IsLegal` | src/main.rs:61-74 | The filter closure accepts a word exactly when every character has a group and no two consecutive characters share one (`Legal`). Needs a non-empty word because of `unwrap`. |
| `Groups.LegalWords` | src/main.rs:61-75 | The legal pool holds exactly the word-list words that pass the filter. |
| `Groups.LegalIffGroups` | src/main.rs:59-75 | A word passes the filter exactly when all its characters are puzzle letters and no two adjacent characters come from the same block of the letter sequence. |
| `Ranking.RankCountsUncovered` | src/main.rs:17 | A candidate's score is the number of remaining letters it does not cover. The score lies between 0 and `|remaining|`, and is 0 exactly when the word covers all remaining letters. |
| `Ranking.RankedLessStrictTotal` | src/main.rs:16-18 | The `(score, word)` tuple order is irreflexive, transitive and total. |
| `Ranking.RankWords` | src/main.rs:16-18 | The ranked set lists every candidate exactly once with its score, in strictly ascending `(score, word)` order: the iteration order of the `BTreeSet`. |
| `Ranking.AscendingCard` | src/main.rs:17 | A strictly ascending listing repeats no pair: it has as many entries as the set of pairs it lists. |
| `Ranking.AscendingSameLength` | src/main.rs:17 | Two ascending listings of the same pairs have the same length. |
| `Ranking.InTail` | src/main.rs:17 | With equal heads, an element past the head of one ascending listing of a set of pairs is past the head of any other listing of the same pairs. |
| `Ranking.AscendingUnique` | src/main.rs:17-27 | Two strictly ascending listings of the same pairs are equal, so the order in which candidates are tried is determined by the candidates alone. |
| `Words.LettersIff` | src/main.rs:29 | A letter is covered by a chain exactly when one of its words contains it. |
| `Solver.Candidates` | src/main.rs:19-25 | For an empty chain every legal word is a candidate. Otherwise a legal word is a candidate exactly when its first character equals the last character of the last word pushed. |
| `Solver.SolvesStep` | src/main.rs:27-30 | A non-empty extension solves a frame exactly when its first word may be pushed and the rest solves the frame that push creates, whose remaining letters are those minus the first word's letters. |
| `Solver.SolvedAfterPush` | src/main.rs:28-30 | Success of the recursive call after pushing a candidate is success of the current frame, with the entry stack intact under the result. |
| `Solver.EarlierCandidatesFail` | src/main.rs:27-30 | On success at position `i` of the ranked listing, every candidate ranked before it sits below `i`, so it has already been tried and failed. |
| `Solver.NoSolutionWhenEveryCandidateFails` | src/main.rs:27-34 | A frame with letters left has no solution when no word that may be pushed leads to one. |
| `Solver.SuccessfulPush` | src/main.rs:27-30 | When the recursive call after pushing ranked candidate `i` succeeds, the frame succeeds: the entry stack is intact, the pushed words solve the frame, and they are ranked-first. |
| `Solver.PushedFirst` | src/main.rs:27-30 | A successful push of a word whose better-ranked rivals all fail extends the ranked-first property from the frame above to the frame that pushed it. |
| `Solver.FailedPush` | src/main.rs:27-31 | After a failed push of ranked candidate `i`, every candidate up to and including `i` has been tried without success: the loop invariant of the `for` loop. |
| `Solver.RankedFirstHead` | src/main.rs:19-30 | The first word of a ranked-first extension was pushed while letters remained. It is a candidate of its frame, and every candidate ranked before it leads to no solution. |
| `Solver.RankedFirstUnique` | src/main.rs:11-35 | Two ranked-first extensions that both solve a frame are equal: the search's answer is determined by the frame. |
| `Solver.EveryRankedCandidateFailed` | src/main.rs:27-34 | When the loop has run through all ranked candidates without success, the frame has no solution. |
| `Solver.SolveRecursive` | src/main.rs:11-35 | Needs `|words| <= maxWords` (the `assert!`). Empty remaining letters give success with the stack unchanged. On success, the entry stack is untouched at the bottom of the result; the pushed words are legal, chained, within the bound and cover the remaining letters. Every pushed word was pushed while letters remained, as the first candidate in ranked order of its frame that leads to a solution (`RankedFirst`). On failure, the stack is exactly as on entry and no extension solves the frame. Terminates by `maxWords - |words|`. |
| `Solver.FoundInLegalPool` | src/main.rs:75-80 | A chain of exactly `bound` words that is ranked-first over a pool equal to the legal words is ranked-first over `LegalPool` at its own length. |
| `Solver.SolutionUsesExactlyTheLetters` | src/main.rs:61-80 | The letters of a solution's words are exactly the puzzle letters. |
| `Solver.SolvePuzzle` | src/main.rs:77-84 | With the validated inputs, a returned chain is a solution with at most `limit` words and no solution has fewer words. It is the ranked-first extension of the empty stack over the legal pool at bound `|chain|`. `None` means every solution has more than `limit` words. |

## Left out

- Argument parsing with `clap`, `to_ascii_lowercase` and the validation that exits the process (src/main.rs:37-57) are not modelled. Their guarantees are preconditions of `Solver.SolvePuzzle`: non-empty letters, a positive group size dividing the letter count, and distinct letters.
- The built-in word list (src/main.rs:5-9) is loaded from a file at build time. It is a parameter `wordList: set<Word>` whose words are non-empty, because blank lines are dropped at load time. This is what makes the `unwrap` calls at lines 21, 22 and 62 safe.
- Printing the solution (src/main.rs:81) is I/O and is left out; `Solver.SolvePuzzle` returns the chain instead.
- The outer loop `for max_words in 1..` never ends when no chain exists. `Solver.SolvePuzzle` stops after bound `limit` and returns `None`; bounds beyond `limit` are not modelled.
- Characters are Dafny `char`, compared by code point. Rust compares `str` byte-wise in UTF-8, which gives the same order. Unicode details beyond that, `usize` limits and `Vec` capacity are not modelled.
- `BTreeSet` and `BTreeMap` are modelled by Dafny sets and maps. The ordered set of `(score, word)` pairs is a strictly ascending sequence built by ordered insertion (`Ranking.Insert`).
- The `assert!` at src/main.rs:12 is a precondition of `Solver.SolveRecursive`, not a panic path. Every call in the source meets it.
