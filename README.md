# Wordle engine, modelled in Dafny

This project models the Wordle game of a small Android word-game app. It covers two parts.

- **The guess scorer** (`checkGuess`). It compares a guess with the target in two passes over a mutable copy of the target. Pass one marks exact matches `Correct` and overwrites those target slots with the sentinel `'*'`. Pass two marks every other guess letter `WrongPosition` when an unconsumed copy is left, and overwrites the leftmost such copy.
- **The game session**. This is the view model. It holds one mutable snapshot (`_uiState`), and four events replace it with a modified copy: typing a letter, deleting a letter, submitting the buffer, and restarting.

Files:

- `wordle_ui_state.dfy`, module `WordleState`: the enum `LetterResult`, the records `Letter`, `WordGuess` and `WordleUiState`. The record's field defaults are Dafny default parameters, so `WordleUiState(targetWord := w)` is the source's `WordleUiState(targetWord = w)` and `s.(f := v)` is its `copy(f = v)`.
- `guess_scorer.dfy`, module `GuessScorer`:
  - `Score`, a pure two-pass specification of the scorer;
  - `CheckGuess`, the scorer as the source runs it, with two loops over arrays, proved equal to `Score`;
  - counting lemmas for duplicate letters.
- `wordle_view_model.dfy`, module `WordleEngine`:
  - the word list;
  - one function per event from the old snapshot to the new one;
  - the session invariant and the lemmas about play;
  - the class `WordleViewModel`, whose field `uiState` the event methods reassign. Each method is proved to compute its event function and to keep the invariant.

Modelling points:

- The sentinel is explicit (`GuessScorer.Consumed`). The count properties hold for every letter other than `'*'`. `SentinelMatchesConsumedSlot` shows a `'*'` in the guess matching a consumed slot. Nothing in the session forbids typing `'*'`; only the screen, which is not modelled, filters input to letters.
- The buffer and result length 6 is the constant `WordLength`. In the source it is hard-coded and not derived from `maxAttempts` or the target.
- `checkGuess` throws an index error for a guess longer than six characters or longer than the target. `CheckGuess` and `Score` therefore require `|guess| <= 6` and `|guess| <= |target|`. Positions past a shorter guess stay `Incorrect`, as in the source.
- `onSubmitGuess` has no game-over test (`WordleViewModel.kt:37-41`), and neither does the model. The invariant `isGameOver ==> currentInput == ""` makes a submit after game over a no-op (`GameOverFreezesPlay`).
- The game is over once the number of guesses is `>= maxAttempts` (`WordleViewModel.kt:48`).
- The word list and `maxAttempts` are fixed: the list is the constant `WordList` (`WordleViewModel.kt:14`) and `maxAttempts` keeps its default 6 (`WordleUistate.kt:16`). Neither is a construction parameter.
- `wordList.random()` becomes a `target` parameter of the constructor and of `RestartGame`, constrained to `WordList`.

## Model

| member | source | states |
|---|---|---|
| `WordleState.FreshSessionDefaults` | app/src/main/java/com/example/unscramble/ui/WordleUistate.kt:10-19 | A fresh snapshot has the given target, empty input and guesses, both flags false and `maxAttempts` 6 |
| `WordleState.MakeGuess` | app/src/main/java/com/example/unscramble/ui/WordleViewModel.kt:44 | Pairing results with the guess characters index by index gives a `WordGuess` whose results are those results and whose characters spell the guess |
| `GuessScorer.IndexOf` | app/src/main/java/com/example/unscramble/ui/WordleViewModel.kt:76 | `indexOf` returns a position holding the character, with no earlier occurrence of it |
| `GuessScorer.Score` | app/src/main/java/com/example/unscramble/ui/WordleViewModel.kt:62-81 | The two-pass scorer returns exactly six results |
| `GuessScorer.CheckGuess` | app/src/main/java/com/example/unscramble/ui/WordleViewModel.kt:62-81 | The in-place two-loop scorer over the result array and the target-character array returns exactly the two-pass specification `Score` |
| `GuessScorer.FirstPassCountIn` | app/src/main/java/com/example/unscramble/ui/WordleViewModel.kt:66-71 | After pass one, for each letter other than `'*'`, exact matches plus unconsumed copies equal the target's copies |
| `GuessScorer.FirstPassClaimedIn` | app/src/main/java/com/example/unscramble/ui/WordleViewModel.kt:66-71 | After pass one, for a guess without `'*'`, each `Correct` position consumed one slot that was not already `'*'` |
| `GuessScorer.SecondPassKeepsVisited` | app/src/main/java/com/example/unscramble/ui/WordleViewModel.kt:73-78 | A later iteration of pass two never changes the result at an earlier position |
| `GuessScorer.SecondPassFacts` | app/src/main/java/com/example/unscramble/ui/WordleViewModel.kt:73-78 | Through pass two: unvisited positions keep their pass-one result; `Correct` positions are exactly pass one's; the working copy holds only target characters or `'*'`; a `WrongPosition` letter is in the target or is `'*'`; an `Incorrect` letter other than `'*'` has no unconsumed copy left |
| `GuessScorer.SecondPassCount` | app/src/main/java/com/example/unscramble/ui/WordleViewModel.kt:73-78 | Each pass-two iteration keeps "matched copies + unconsumed copies = target copies" for every letter other than `'*'` |
| `GuessScorer.SecondPassClaimed` | app/src/main/java/com/example/unscramble/ui/WordleViewModel.kt:73-78 | Each pass-two iteration keeps "matched positions = freshly consumed slots" for a guess without `'*'` |
| `GuessScorer.CorrectIffSameLetter` | app/src/main/java/com/example/unscramble/ui/WordleViewModel.kt:63-75 | Position i is `Correct` if and only if i is within the guess and guess and target agree at i; positions past the guess are `Incorrect` |
| `GuessScorer.WrongPositionSound` | app/src/main/java/com/example/unscramble/ui/WordleViewModel.kt:73-77 | `WrongPosition` at i implies i is within the guess, `g[i] != t[i]`, and `g[i]` occurs in the target unless it is `'*'` |
| `GuessScorer.ScoreSelfAllCorrect` | app/src/main/java/com/example/unscramble/ui/WordleViewModel.kt:66-71 | Scoring a six-letter word against itself gives six `Correct` |
| `GuessScorer.MatchedPlusLeftIsTargetCount` | app/src/main/java/com/example/unscramble/ui/WordleViewModel.kt:64-78 | For each letter other than `'*'`, positions marked `Correct`/`WrongPosition` plus copies left unconsumed equal the target's copies: no target slot is claimed twice |
| `GuessScorer.MatchedIsMinCount` | app/src/main/java/com/example/unscramble/ui/WordleViewModel.kt:64-78 | Duplicate fairness: a letter other than `'*'` is matched at most as often as the target holds it and at most as often as the guess holds it, and exactly the smaller of the two |
| `GuessScorer.IncorrectMeansExhausted` | app/src/main/java/com/example/unscramble/ui/WordleViewModel.kt:73-78 | An `Incorrect` guess letter other than `'*'` means every copy of it in the target is claimed by some matched position |
| `GuessScorer.ClaimedIsConsumedSlots` | app/src/main/java/com/example/unscramble/ui/WordleViewModel.kt:64-78 | For a guess without `'*'`, the number of matched positions equals the number of target slots the scorer overwrote |
| `GuessScorer.SentinelMatchesConsumedSlot` | app/src/main/java/com/example/unscramble/ui/WordleViewModel.kt:69-76 | A guess `'*'` is marked `WrongPosition` against `PLANET` after the exact match consumed slot 0, although `'*'` is not in the target |
| `GuessScorer.ScoreRepeatedLetters` | app/src/main/java/com/example/unscramble/ui/WordleViewModel.kt:62-81 | `AABBCC` against `ABABAB` scores Correct, WrongPosition, WrongPosition, Correct, Incorrect, Incorrect |
| `WordleEngine.WordListWellFormed` | app/src/main/java/com/example/unscramble/ui/WordleViewModel.kt:14 | Every word of `WordList`, the source's `wordList`, has six upper-case letters, contains no `'*'`, and is unchanged by upper-casing |
| `WordleEngine.UpperCase` | app/src/main/java/com/example/unscramble/ui/WordleViewModel.kt:26 | `uppercaseChar()` on ASCII: a lower-case letter becomes the upper-case letter at the same place in the alphabet; every other character is kept |
| `WordleEngine.LetterInput` | app/src/main/java/com/example/unscramble/ui/WordleViewModel.kt:23-28 | Typing appends the upper-cased character when the input is shorter than 6 and the game is not over, and otherwise leaves the state unchanged; guesses, target, flags and `maxAttempts` never change |
| `WordleEngine.DeleteLetter` | app/src/main/java/com/example/unscramble/ui/WordleViewModel.kt:30-35 | Deleting drops exactly the last character when the input is non-empty and the game is not over, and otherwise leaves the state unchanged (so deleting from an empty input is a no-op); nothing else changes |
| `WordleEngine.SubmitGuess` | app/src/main/java/com/example/unscramble/ui/WordleViewModel.kt:37-56 | Input of length other than 6 leaves the state unchanged. Otherwise the earlier guesses are kept and one guess is added. That guess spells the input, and its results are the scorer's. The input is cleared, the target and `maxAttempts` are kept, `isGameWon` is "input equals target" and `isGameOver` is "won, or guesses >= maxAttempts" |
| `WordleEngine.FreshSessionValid` | app/src/main/java/com/example/unscramble/ui/WordleViewModel.kt:16-20 | A fresh session on a listed word satisfies the session invariant |
| `WordleEngine.LetterInputPreserves` | app/src/main/java/com/example/unscramble/ui/WordleViewModel.kt:23-28 | Typing keeps the invariant, including input length <= 6 |
| `WordleEngine.DeleteLetterPreserves` | app/src/main/java/com/example/unscramble/ui/WordleViewModel.kt:30-35 | Deleting keeps the invariant |
| `WordleEngine.SubmitGuessPreserves` | app/src/main/java/com/example/unscramble/ui/WordleViewModel.kt:37-56 | Submitting keeps the invariant. Guesses stay <= maxAttempts and each is a scored six-letter word. Won implies over and at least one guess. Over implies empty input, and over holds if and only if won or attempts are used up. A guess spells the target if and only if it is the last guess of a won game |
| `WordleEngine.GameOverFreezesPlay` | app/src/main/java/com/example/unscramble/ui/WordleViewModel.kt:23-56 | After game over, typing, deleting and submitting all leave the state unchanged; for submit this follows from the empty input, not from a guard |
| `WordleEngine.WonEndsAllCorrect` | app/src/main/java/com/example/unscramble/ui/WordleViewModel.kt:43-54 | A won game has a last guess that spells the target and is `Correct` at all six positions |
| `WordleEngine.TypeWordAppends` | app/src/main/java/com/example/unscramble/ui/WordleViewModel.kt:23-28 | Typing a word into a game that is not over and has room appends its upper-cased characters and changes nothing else |
| `WordleEngine.FirstGuessWins` | app/src/main/java/com/example/unscramble/ui/WordleViewModel.kt:37-56 | Typing and submitting the target as the first guess of a fresh session gives won, over, one guess, all `Correct` |
| `WordleEngine.MissesUseAttempts` | app/src/main/java/com/example/unscramble/ui/WordleViewModel.kt:46-48 | Each submitted non-target six-letter word adds one guess. The game is not won, and it is over exactly when attempts are used up |
| `WordleEngine.SixMissesLose` | app/src/main/java/com/example/unscramble/ui/WordleViewModel.kt:46-48 | Six non-target six-letter words from a fresh session leave the game over, not won, with six guesses |
| `WordleEngine.WordleViewModel.constructor` | app/src/main/java/com/example/unscramble/ui/WordleViewModel.kt:16-20 | The session starts as a fresh snapshot on a target chosen from the word list, satisfying the invariant |
| `WordleEngine.WordleViewModel.OnLetterInput` | app/src/main/java/com/example/unscramble/ui/WordleViewModel.kt:23-28 | Replaces the snapshot by `LetterInput` of the old one and keeps the invariant |
| `WordleEngine.WordleViewModel.OnDeleteLetter` | app/src/main/java/com/example/unscramble/ui/WordleViewModel.kt:30-35 | Replaces the snapshot by `DeleteLetter` of the old one and keeps the invariant |
| `WordleEngine.WordleViewModel.OnSubmitGuess` | app/src/main/java/com/example/unscramble/ui/WordleViewModel.kt:37-56 | Scores with the array scorer `CheckGuess` and replaces the snapshot by `SubmitGuess` of the old one, keeping the invariant |
| `WordleEngine.WordleViewModel.RestartGame` | app/src/main/java/com/example/unscramble/ui/WordleViewModel.kt:58-60 | Replaces the snapshot by a fresh one on a target from the word list: empty input and guesses, both flags false |

## Left out

- `Char.uppercaseChar()` is modelled ASCII-only: `a`..`z` become `A`..`Z` and every other character is kept. Unicode case mapping is not modelled.
- `wordList.random()` is not modelled as randomness. The chosen word is a parameter that must be in the word list.
- `MutableStateFlow`/`StateFlow` publication and the `ViewModel` lifecycle are left out. The snapshot is a plain mutable field, and reading `uiState` is reading that field.
- The screen, navigation and home screen files are not part of this model: rendering, key capture, the letter filter and the grid layout.
- `CheckGuess` does not model the index exceptions the source throws for a guess longer than six characters or longer than the target. Those inputs are excluded by its precondition, and the session never produces them.
- `maxAttempts` is a Kotlin `Int`. The model uses unbounded integers, because the number of guesses never exceeds 6.
