/** The Wordle game session: a view model holding one mutable snapshot
    `uiState`, four events that replace it with an updated copy, and the
    word list that targets are drawn from. Each event is specified by a
    function from the old snapshot to the new one; the class methods are
    proved to compute those functions, and the lemmas say what the
    functions keep and achieve. */
module WordleEngine {
  import opened WordleState
  import opened GuessScorer

  /** The words a target is drawn from. */
  const WordList: seq<string> := ["PLANET", "GARDEN", "PENCIL", "MARKET", "BUTTON", "JACKET"]

  /** ASCII upper-casing: `a`..`z` map to `A`..`Z`, every other character
      is kept. */
  function UpperCase(c: char): (u: char)
    ensures 'a' <= c <= 'z' ==> 'A' <= u <= 'Z' && u as int - 'A' as int == c as int - 'a' as int
    ensures !('a' <= c <= 'z') ==> u == c
  {
    if 'a' <= c <= 'z' then (c as int - 32) as char else c
  }

  /** `UpperCase` applied to every character of `w`. */
  function UpperAll(w: string): (u: string)
    ensures |u| == |w|
  {
    seq(|w|, i requires 0 <= i < |w| => UpperCase(w[i]))
  }

  /** Every listed word has six upper-case letters, so none contains the
      sentinel and upper-casing leaves it alone. */
  lemma WordListWellFormed(w: string)
    requires w in WordList
    ensures |w| == WordLength
    ensures forall i :: 0 <= i < |w| ==> 'A' <= w[i] <= 'Z'
    ensures Consumed !in w && UpperAll(w) == w
  {
  }

  /** `g` is a six-letter guess scored against `target` by the scorer. */
  predicate ScoredAgainst(g: WordGuess, target: string) {
    |g.letters| == WordLength && |target| >= WordLength &&
    Results(g) == Score(Spell(g), target)
  }

  /** The invariant every reachable snapshot satisfies. */
  predicate Invariant(s: WordleUiState) {
    s.targetWord in WordList &&
    s.maxAttempts == DefaultMaxAttempts &&
    |s.currentInput| <= WordLength &&
    |s.guesses| <= s.maxAttempts &&
    (s.isGameWon ==> s.isGameOver && |s.guesses| > 0) &&
    (s.isGameOver ==> s.currentInput == "") &&
    (s.isGameOver <==> s.isGameWon || |s.guesses| == s.maxAttempts) &&
    (forall k :: 0 <= k < |s.guesses| ==> ScoredAgainst(s.guesses[k], s.targetWord)) &&
    (forall k :: 0 <= k < |s.guesses| ==>
      (Spell(s.guesses[k]) == s.targetWord <==> s.isGameWon && k == |s.guesses| - 1))
  }

  // ---------------------------------------------------------------------
  // The four events, as functions on snapshots

  /** Typing a character: appended, upper-cased, while the buffer holds
      fewer than six characters and the game is not over; otherwise
      ignored. Nothing but the buffer changes. */
  function LetterInput(s: WordleUiState, ch: char): (r: WordleUiState)
    ensures r.targetWord == s.targetWord && r.guesses == s.guesses &&
            r.isGameOver == s.isGameOver && r.isGameWon == s.isGameWon &&
            r.maxAttempts == s.maxAttempts
    ensures |s.currentInput| < WordLength && !s.isGameOver ==>
            r.currentInput == s.currentInput + [UpperCase(ch)]
    ensures !(|s.currentInput| < WordLength && !s.isGameOver) ==> r == s
  {
    if |s.currentInput| < WordLength && !s.isGameOver then
      s.(currentInput := s.currentInput + [UpperCase(ch)])
    else
      s
  }

  /** Deleting: drops the last character of a non-empty buffer while the
      game is not over; otherwise ignored. Nothing but the buffer
      changes. */
  function DeleteLetter(s: WordleUiState): (r: WordleUiState)
    ensures r.targetWord == s.targetWord && r.guesses == s.guesses &&
            r.isGameOver == s.isGameOver && r.isGameWon == s.isGameWon &&
            r.maxAttempts == s.maxAttempts
    ensures |s.currentInput| > 0 && !s.isGameOver ==>
            r.currentInput + [s.currentInput[|s.currentInput| - 1]] == s.currentInput
    ensures !(|s.currentInput| > 0 && !s.isGameOver) ==> r == s
  {
    if |s.currentInput| > 0 && !s.isGameOver then
      s.(currentInput := s.currentInput[..|s.currentInput| - 1])
    else
      s
  }

  /** Submitting: a buffer of other than six characters is ignored. A
      six-character buffer is scored against the target and appended as a
      guess; the buffer is cleared, the game is won when the buffer spells
      the target, and over when won or out of attempts. There is no test
      of `isGameOver`. */
  function SubmitGuess(s: WordleUiState): (r: WordleUiState)
    requires |s.currentInput| == WordLength ==> |s.targetWord| >= WordLength
    ensures |s.currentInput| != WordLength ==> r == s
    ensures |s.currentInput| == WordLength ==>
      r.targetWord == s.targetWord && r.maxAttempts == s.maxAttempts &&
      r.currentInput == "" &&
      |r.guesses| == |s.guesses| + 1 && r.guesses[..|s.guesses|] == s.guesses &&
      Spell(r.guesses[|s.guesses|]) == s.currentInput &&
      Results(r.guesses[|s.guesses|]) == Score(s.currentInput, s.targetWord) &&
      r.isGameWon == (s.currentInput == s.targetWord) &&
      r.isGameOver == (r.isGameWon || |r.guesses| >= s.maxAttempts)
  {
    var guess := s.currentInput;
    if |guess| != WordLength then s
    else
      var wordGuess := MakeGuess(guess, Score(guess, s.targetWord));
      var newGuesses := s.guesses + [wordGuess];
      var won := guess == s.targetWord;
      var over := won || |newGuesses| >= s.maxAttempts;
      s.(guesses := newGuesses, currentInput := "", isGameOver := over, isGameWon := won)
  }

  // ---------------------------------------------------------------------
  // Invariant preservation

  /** A fresh session for a listed word satisfies the invariant. */
  lemma FreshSessionValid(target: string)
    requires target in WordList
    ensures Invariant(WordleUiState(targetWord := target))
  {
  }

  lemma LetterInputPreserves(s: WordleUiState, ch: char)
    requires Invariant(s)
    ensures Invariant(LetterInput(s, ch))
  {
  }

  lemma DeleteLetterPreserves(s: WordleUiState)
    requires Invariant(s)
    ensures Invariant(DeleteLetter(s))
  {
  }

  lemma SubmitGuessPreserves(s: WordleUiState)
    requires Invariant(s)
    ensures Invariant(SubmitGuess(s))
  {
    WordListWellFormed(s.targetWord);
    if |s.currentInput| == WordLength {
      var r := SubmitGuess(s);
      assert !s.isGameOver && !s.isGameWon;
      forall k | 0 <= k < |r.guesses|
        ensures ScoredAgainst(r.guesses[k], r.targetWord)
        ensures Spell(r.guesses[k]) == r.targetWord <==> r.isGameWon && k == |r.guesses| - 1
      {
        if k < |s.guesses| {
          assert r.guesses[k] == s.guesses[k];
        }
      }
    }
  }

  /** Once the game is over, typing, deleting and submitting leave the
      snapshot unchanged; submitting relies on the empty buffer. */
  lemma GameOverFreezesPlay(s: WordleUiState, ch: char)
    requires Invariant(s) && s.isGameOver
    ensures LetterInput(s, ch) == s
    ensures DeleteLetter(s) == s
    ensures SubmitGuess(s) == s
  {
  }

  /** A won game ends with a guess that spells the target and is scored
      `Correct` at every position. */
  lemma WonEndsAllCorrect(s: WordleUiState)
    requires Invariant(s) && s.isGameWon
    ensures |s.guesses| > 0
    ensures Spell(s.guesses[|s.guesses| - 1]) == s.targetWord
    ensures Results(s.guesses[|s.guesses| - 1]) == seq(WordLength, _ => Correct)
  {
    WordListWellFormed(s.targetWord);
    var last := |s.guesses| - 1;
    assert Spell(s.guesses[last]) == s.targetWord;
    ScoreSelfAllCorrect(s.targetWord);
  }

  // ---------------------------------------------------------------------
  // Playing whole words

  /** Typing the characters of `w` one after another. */
  function TypeWord(s: WordleUiState, w: string): (r: WordleUiState)
    ensures r.targetWord == s.targetWord
    decreases |w|
  {
    if |w| == 0 then s else TypeWord(LetterInput(s, w[0]), w[1..])
  }

  /** Typing a word and submitting it, for each word in turn. */
  function Play(s: WordleUiState, words: seq<string>): (r: WordleUiState)
    requires |s.targetWord| >= WordLength
    ensures r.targetWord == s.targetWord
    decreases |words|
  {
    if |words| == 0 then s
    else Play(SubmitGuess(TypeWord(s, words[0])), words[1..])
  }

  /** Typing into a game that is not over and has room fills the buffer
      with the upper-cased word and changes nothing else. */
  lemma {:induction false} TypeWordAppends(s: WordleUiState, w: string)
    requires !s.isGameOver && |s.currentInput| + |w| <= WordLength
    ensures TypeWord(s, w) == s.(currentInput := s.currentInput + UpperAll(w))
    decreases |w|
  {
    if |w| > 0 {
      var s1 := LetterInput(s, w[0]);
      TypeWordAppends(s1, w[1..]);
      assert [UpperCase(w[0])] + UpperAll(w[1..]) == UpperAll(w);
      assert s1.currentInput + UpperAll(w[1..]) == s.currentInput + UpperAll(w);
    } else {
      assert s.currentInput + UpperAll(w) == s.currentInput;
    }
  }

  /** Typing the target into a fresh session and submitting it wins the
      game with one guess, scored `Correct` throughout. */
  lemma FirstGuessWins(target: string)
    requires target in WordList
    ensures var r := SubmitGuess(TypeWord(WordleUiState(targetWord := target), target));
      r.isGameWon && r.isGameOver && |r.guesses| == 1 && Invariant(r) &&
      Results(r.guesses[0]) == seq(WordLength, _ => Correct)
  {
    var s := WordleUiState(targetWord := target);
    WordListWellFormed(target);
    TypeWordAppends(s, target);
    assert TypeWord(s, target).currentInput == target;
    SubmitGuessPreserves(TypeWord(s, target));
    ScoreSelfAllCorrect(target);
  }

  /** Submitting six-letter words none of which is the target, while
      attempts remain, loses no ground: each adds one guess, the game is
      not won, and it is over exactly when the attempts are used up. */
  lemma {:induction false} MissesUseAttempts(s: WordleUiState, words: seq<string>)
    requires Invariant(s) && !s.isGameWon && s.currentInput == ""
    requires |s.guesses| + |words| <= s.maxAttempts
    requires forall i :: 0 <= i < |words| ==>
      |words[i]| == WordLength && UpperAll(words[i]) != s.targetWord
    ensures var r := Play(s, words);
      Invariant(r) && !r.isGameWon && r.currentInput == "" &&
      |r.guesses| == |s.guesses| + |words| &&
      (r.isGameOver <==> |r.guesses| == r.maxAttempts)
    decreases |words|
  {
    WordListWellFormed(s.targetWord);
    if |words| > 0 {
      var typed := TypeWord(s, words[0]);
      TypeWordAppends(s, words[0]);
      assert typed.currentInput == UpperAll(words[0]);
      var s1 := SubmitGuess(typed);
      assert Invariant(typed);
      SubmitGuessPreserves(typed);
      MissesUseAttempts(s1, words[1..]);
    }
  }

  /** Six wrong guesses from a fresh session lose the game. */
  lemma SixMissesLose(target: string, words: seq<string>)
    requires target in WordList && |words| == DefaultMaxAttempts
    requires forall i :: 0 <= i < |words| ==>
      |words[i]| == WordLength && UpperAll(words[i]) != target
    ensures var r := Play(WordleUiState(targetWord := target), words);
      r.isGameOver && !r.isGameWon && |r.guesses| == DefaultMaxAttempts
  {
    MissesUseAttempts(WordleUiState(targetWord := target), words);
  }

  // ---------------------------------------------------------------------
  // The view model

  /** The view model: one mutable snapshot, replaced by each event. The
      random choice of a target word is a parameter constrained to the word
      list. */
  class WordleViewModel {
    var uiState: WordleUiState

    ghost predicate Valid()
      reads this
    {
      Invariant(uiState)
    }

    constructor (target: string)
      requires target in WordList
      ensures Valid()
      ensures uiState == WordleUiState(targetWord := target)
    {
      uiState := WordleUiState(targetWord := target);
    }

    method OnLetterInput(ch: char)
      requires Valid()
      modifies this
      ensures Valid()
      ensures uiState == LetterInput(old(uiState), ch)
    {
      var current := uiState;
      if |current.currentInput| < WordLength && !current.isGameOver {
        uiState := current.(currentInput := current.currentInput + [UpperCase(ch)]);
      }
      LetterInputPreserves(current, ch);
    }

    method OnDeleteLetter()
      requires Valid()
      modifies this
      ensures Valid()
      ensures uiState == DeleteLetter(old(uiState))
    {
      var current := uiState;
      if |current.currentInput| > 0 && !current.isGameOver {
        uiState := current.(currentInput := current.currentInput[..|current.currentInput| - 1]);
      }
      DeleteLetterPreserves(current);
    }

    method OnSubmitGuess()
      requires Valid()
      modifies this
      ensures Valid()
      ensures uiState == SubmitGuess(old(uiState))
    {
      var current := uiState;
      var guess := current.currentInput;
      SubmitGuessPreserves(current);
      if |guess| != WordLength {
        return;
      }
      WordListWellFormed(current.targetWord);
      var result := CheckGuess(guess, current.targetWord);
      var wordGuess := MakeGuess(guess, result);
      var newGuesses := current.guesses + [wordGuess];
      var won := guess == current.targetWord;
      var over := won || |newGuesses| >= current.maxAttempts;
      uiState := current.(guesses := newGuesses, currentInput := "", isGameOver := over, isGameWon := won);
    }

    method RestartGame(target: string)
      requires target in WordList
      modifies this
      ensures Valid()
      ensures uiState == WordleUiState(targetWord := target)
    {
      uiState := WordleUiState(targetWord := target);
    }
  }
}
