# Wordle solver core in Dafny

This project models the solver in `src/main.rs` of a Wordle-style puzzle solver and proves properties of the model.

- `WordlSolver` keeps one set of admissible letters per position (`letters`). It also keeps `known_good`, the set of letters known to occur somewhere in the secret.
- `guess` filters the target words against that state. It answers the only survivor if there is one and fails if there are none. Otherwise it ranks every target word with an `inv_dist` heuristic computed over the survivors.
- `update` narrows the state with one round of feedback.
- `score` is the feedback oracle. It compares a guess with the secret using Wordle's duplicate-letter rule.
- `new` and `reset` build the empty state.

The model is functional. The solver is an immutable datatype, and `update`, `reset` and `guess` are pure functions that return a new state or an answer. The two passes of `score` are methods with loops, because they mirror the source's mutable counter.

Modules:

- `Results`: `Option` and `Result`.
- `Counting`: `counter`, map lookups with default 0, and `inv_dist`.
- `Oracle`: `CharResult`, the pass-free reference rule `Feedback`, the two-pass method `Score` and the properties of the feedback.
- `SolverState`: the state, `new`, `reset` and the candidate filter.
- `Updating`: `update`, written as the source's loop (`Step`, `Run`) and as an order-free closed form (`Partial`).
- `Ranking`: `guess`, covering the tables of the source, the heuristic restated over survivor counts (`Merit`) and `max_by_key`.
- `Sessions`: how `score`, `update` and `guess` fit together across a session.

Choices the code makes that shape the model:

- **Ties.** Ties go to the last maximal word, because `Iterator::max_by_key` (src/main.rs:67) keeps the last maximum. `LastArgMax` models that.
- **Which words are ranked.** Only `target_words` is ranked. `guess_words` is stored (src/main.rs:8) and never read.
- **Exact matches first.** Scoring "slate" against the secret "crane" gives Green at the `a`, because the letters agree there. `Oracle.SlateAgainstCrane` states the whole result.

## Model

| member | source | states |
|---|---|---|
| `Counting.Counter` | src/main.rs:132-138 | The counter has an entry exactly for each element that occurs. Each entry is that element's multiplicity, so no entry exceeds the input's length. |
| `Counting.InvDist` | src/main.rs:140-143 | For `n <= goal`, `inv_dist(n, goal)` equals `min(n, goal - n)`. It is 0 exactly when `n` is 0 or `goal`, it never exceeds `goal / 2`, and it is therefore symmetric about `goal / 2`. |
| `Counting.InvDistAll` | src/main.rs:56-58 | After `inv_dist` is applied to every counter entry, a lookup with default 0 returns `inv_dist` of the original count. This holds for absent letters too. |
| `Oracle.Feedback` | src/main.rs:145-169 | Gives one mark per position of the secret. A mark is Green exactly where the letters agree. Otherwise it is Yellow exactly when fewer earlier mismatched copies of the letter exist than unclaimed copies in the secret. |
| `Oracle.ExactPass` | src/main.rs:146-154 | The first pass marks Green exactly where the letters agree and leaves everything else unmarked. The counter it leaves holds, for each letter, the secret's copies not consumed by an exact match. |
| `Oracle.PresencePass` | src/main.rs:156-166 | The second pass gives each position the mark of the duplicate-letter rule. Every decrement acts on a positive entry, so the remaining count never goes negative. |
| `Oracle.Score` | src/main.rs:145-169 | The two-pass `score` returns exactly the pass-free rule `Feedback`. |
| `Oracle.NonGreyCount` | src/main.rs:146-166 | For every letter, the number of non-Grey marks equals the smaller of the letter's copies in the guess and in the secret. So it never exceeds the secret's copies. |
| `Oracle.AbsentLetterGrey` | src/main.rs:160-165 | A guessed letter that the secret does not contain is always Grey. |
| `Oracle.GreyButPresent` | src/main.rs:156-166 | If a letter is Grey although the secret contains it, the same guess marks that letter Yellow or Green at another position. |
| `Oracle.SelfFeedbackAllGreen` | src/main.rs:149-154 | Scoring a word against itself gives Green at every position. |
| `Oracle.SpeedAgainstErase` | src/main.rs:145-169 | "speed" against the secret "erase" gives Yellow, Grey, Yellow, Yellow, Grey. |
| `Oracle.AbcaAgainstAabb` | src/main.rs:145-169 | "abca" against the secret "aabb" gives Green, Yellow, Grey, Yellow. The exact match on `a` consumes one copy before the second pass. |
| `Oracle.SlateAgainstCrane` | src/main.rs:145-169 | "slate" against the secret "crane" gives Grey, Grey, Green, Grey, Green. |
| `SolverState.New` | src/main.rs:14-27 | Keeps the length and both vocabularies, has one letter set per position and an empty `known_good`. A word of the right length passes the filter exactly when it is lowercase. |
| `SolverState.Reset` | src/main.rs:114-122 | After any history, `reset` gives exactly the state `new` builds for the same length and vocabularies. |
| `SolverState.Filter` | src/main.rs:30-42 | `filter` + `collect` keeps exactly the words the predicate accepts. Each accepted word appears as often as in the input, the order of the input is kept, and the result is never longer than the input. |
| `SolverState.FitsLetters` | src/main.rs:32-37 | The first filter closure: each letter of the word is in the letter set of its position, over the common prefix `zip` walks. Its effect is stated by `SolverState.Candidates` and `SolverState.New`. |
| `SolverState.HasKnownGood` | src/main.rs:38-41 | The second filter closure: the word contains every known-good letter. Its effect is stated by `SolverState.Candidates`. |
| `SolverState.Candidates` | src/main.rs:30-42 | A word survives exactly when it is a target word, each letter is admissible at its position and it contains every known-good letter. A survivor appears as often as among the target words and in their order, which fixes `choices.len()`. |
| `Updating.Pairs` | src/main.rs:86 | `zip` pairs each letter with its mark and stops at the shorter of the word and the result. |
| `Updating.Step` | src/main.rs:89-110 | One loop iteration changes only the letter sets and `known_good`. A Green pins position `i` to its letter and any other mark removes the letter there. A Grey whose letter is reported Yellow or Green nowhere in the round removes it from every position, and otherwise the other positions are unchanged. `known_good` gains the letter exactly when it is not Grey. |
| `Updating.Run` | src/main.rs:88-111 | The loop changes only the letter sets and `known_good`, keeps one letter set per position, and only ever adds to `known_good`. |
| `Updating.Update` | src/main.rs:85-112 | `update` keeps the length and vocabularies, keeps one letter set per position, and never removes anything from `known_good`. |
| `Updating.StepExtends` | src/main.rs:88-110 | One loop iteration takes the closed form for the first `i` positions to the closed form for `i + 1`. |
| `Updating.RunFromPartial` | src/main.rs:88-111 | Finishing the loop from the closed form for `i` positions reaches the closed form for the whole round. |
| `Updating.UpdateClosedForm` | src/main.rs:85-112 | `update` equals an order-free form. A Green position holds just its letter. Every other position loses the Grey letters that are never confirmed in the round, and also its own letter if it was reported. `known_good` gains the letters reported Yellow or Green. |
| `Updating.UpdateGreen` | src/main.rs:105-109 | Green at `i` sets `letters[i]` to exactly `{l}` and puts `l` in `known_good`. |
| `Updating.UpdateYellow` | src/main.rs:100-103 | Yellow at `i` removes `l` from `letters[i]` and puts `l` in `known_good`. |
| `Updating.UpdateGrey` | src/main.rs:90-98 | Grey at `i` removes `l` from `letters[i]`. If no Yellow or Green of `l` appears in the round, no position admits `l` afterwards. |
| `Updating.ConfirmedLetterStaysElsewhere` | src/main.rs:90-103 | A letter reported Yellow or Green in the round is removed only where it is itself reported. At any other position not pinned by Green, it stays admissible exactly if it was. |
| `Updating.UpdateKnownGood` | src/main.rs:100-109 | `known_good` keeps every letter and gains exactly the letters reported Yellow or Green. A Grey never adds a letter. |
| `Updating.SingletonUnaffected` | src/main.rs:88-111 | A position pinned to `{p}` stays `{p}` when the round never reports `p` Grey or Yellow and no Green names another letter at that position. |
| `Ranking.DistinctFrom` | src/main.rs:73-78 | Skipping letters already seen yields each letter of the word that was not seen before, exactly once. |
| `Ranking.Distinct` | src/main.rs:62 | A word's distinct letters: each letter of the word exactly once and no other letter. |
| `Ranking.ColumnCounts` | src/main.rs:55 | Counting the column at position `i` gives the number of survivors that have the letter there. |
| `Ranking.DistinctLettersCounts` | src/main.rs:62 | Counting the flattened distinct letters gives the number of survivors that contain the letter. |
| `Ranking.PositionTable` | src/main.rs:53-60 | `letter_freqs[i]` gives every letter, present or not, `inv_dist` of how many survivors have it at position `i`. |
| `Ranking.CoverageTable` | src/main.rs:62-65 | `word_freq` gives every letter, present or not, `inv_dist` of how many survivors contain it. |
| `Ranking.TableScore` | src/main.rs:67-82 | The `max_by_key` key: position lookups plus the lookups of each distinct letter once. Its value is stated by `Ranking.TableScoreIsMerit`. |
| `Ranking.TableScoreIsMerit` | src/main.rs:67-82 | The source's tables and lookups give a word its `Merit`. That is the sum of `inv_dist` of how many survivors share each position's letter, plus `inv_dist` of how many survivors contain each distinct letter, counted once. |
| `Ranking.Scores` | src/main.rs:53-82 | The key computed for each target word is that word's `Merit` over the survivors. |
| `Ranking.LastArgMax` | src/main.rs:67 | `max_by_key` returns a position whose key is at least every other key, and no later key equals it. |
| `Ranking.BestTarget` | src/main.rs:53-82 | The ranked word is the last target word of highest `Merit`. |
| `Ranking.Guess` | src/main.rs:29-83 | `guess` fails exactly when no target word survives. If one survives, it returns that word. Otherwise it returns the last target word of highest `Merit` over the survivors. The result is always a target word. |
| `Sessions.RuledOutNotInSecret` | src/main.rs:90-98 | Under real feedback, a letter that `update` removes from every position is not in the secret. |
| `Sessions.PresentInSecret` | src/main.rs:149-166 | A position that `score` marks Yellow or Green holds a letter of the secret. |
| `Sessions.UpdateKeepsSecret` | src/main.rs:85-112 | Feeding back the oracle's marks for any guess keeps the secret admissible: every position still admits the secret's letter, and every letter `update` adds to `known_good` is in the secret. |
| `Sessions.UpdateNarrows` | src/main.rs:85-112 | While the secret is admissible, a round of real feedback only shrinks each position's letters and only grows `known_good`. Every word admitted afterwards was admitted before. |
| `Sessions.CandidatesNarrow` | src/main.rs:30-42 | After a round of real feedback the survivors are a subset of those before, and a secret that is a target word still survives. |
| `Sessions.WrongGuessRuledOut` | src/main.rs:85-112 | After its own real feedback, a wrong guess no longer passes the filter. |
| `Sessions.PinnedStaysPinned` | src/main.rs:105-109 | While the secret is admissible, a position pinned to one letter keeps it through any round of real feedback. |
| `Sessions.GuessWhileSecretAdmissible` | src/main.rs:44-51 | While the secret is an admissible target word, `guess` does not fail. When the secret is the only survivor, `guess` returns it. |
| `Sessions.Replay` | src/main.rs:197-208 | Any number of rounds keeps the length, the target words and one letter set per position. |
| `Sessions.ReplayKeepsSecret` | src/main.rs:197-208 | After any sequence of rounds of real feedback, the secret is still admissible. |
| `Sessions.SessionNeverImpossible` | src/main.rs:49-51 | Starting from `new`, after any rounds of real feedback, `guess` never fails when the secret is a lowercase target word, so its `unreachable!` cannot be reached. |

## Left out

- `main` (src/main.rs:171-222) is not modelled. This covers loading the word lists with `include_str!` from files not shown, the batch loop over every target, the histogram printing, the 10-try cap and the `panic!`. Whether every secret is found within 10 rounds depends on the word lists, so it cannot be stated without them. `Sessions.Replay` models only the rounds of that loop, with the guessed words as a parameter.
- The imports of `rand` and `thread_rng` (src/main.rs:2-3, 187) are not modelled. The randomness is never used.
- `HashMap` and `HashSet` are modelled as Dafny maps, sets and multisets, so capacities and iteration order are not modelled. The `flat_map` over each word's `HashSet` is modelled as the word's distinct letters in first-occurrence order. The counter built from it depends only on the multiset of letters, so the result is the same.
- `usize`, `u32` and `i32` are modelled as unbounded `nat`/`int`, so overflow is not modelled. Counts are at most the number of survivors, which the word lists keep small.
- `Counting.InvDist`: the `as u32` cast in the source wraps to a huge value when `n > goal`. The model requires `n <= goal` instead. Every count passed in is proved to be at most the number of survivors, so the wrapped case is never reached.
- Words are modelled as sequences of `char`. `score` sizes its result by the secret's byte length, which equals its character count only for ASCII words. The model assumes the word lists are lowercase ASCII. The files they are loaded from (src/main.rs:173, 179) are not part of this model.
- Inputs that make the source panic are preconditions instead of error results:
  - `Oracle.Score` requires the guess to be at least as long as the secret. A shorter guess leaves an unmarked position, and the final `unwrap` panics.
  - `Updating.Update` requires no more pairs than positions. The only call (src/main.rs:200-202) passes a word and a result of length `word_len`. A longer round would make `letters[i]` panic on a Yellow, a Green or a confirmed Grey beyond the last position. An unconfirmed Grey there returns normally in the source, and the model does not cover that case.
  - `Ranking.Guess` requires every target word to have the solver's length, which the loader (src/main.rs:173-177) guarantees. Other lengths do not always panic in the source. A single survivor is returned before any indexing (src/main.rs:45-47), and a target word that fails the filter is only indexed up to its own length. Once two or more words survive, a shorter survivor makes `nth(i).unwrap()` panic and a longer target word makes `letter_freqs[i]` panic. The model does not cover the wrong-length inputs that return normally.
- Contradictory feedback is accepted without checking, as in the source. Properties that need consistent feedback (`Sessions.*`) assume the marks are the oracle's answer for a fixed secret.
- `first_draft.py` is a superseded prototype and is not modelled. It uses float division in `inv_dist`, overwrites the letter sets in `guess`, ranks the guess vocabulary and doubles the coverage weight.
