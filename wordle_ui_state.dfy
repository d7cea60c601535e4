/** The value types of the Wordle screen: the classification of one guessed
    letter, a scored letter, a scored guess, and the snapshot of one game
    session with the defaults the session starts from. */
module WordleState {

  /** How one guessed letter compares with the target word. */
  datatype LetterResult = Correct | Incorrect | WrongPosition

  /** One guessed character together with its classification. */
  datatype Letter = Letter(ch: char, result: LetterResult)

  /** A submitted, scored guess: its letters in order. */
  datatype WordGuess = WordGuess(letters: seq<Letter>)

  const DefaultMaxAttempts := 6

  /** The snapshot of a game session. Each field has the default the
      session starts from, so `WordleUiState(targetWord := w)` is a fresh
      session for the target `w`, and `s.(f := v)` is a copy of `s` that
      replaces only the field `f`. */
  datatype WordleUiState = WordleUiState(
    targetWord: string := "",
    currentInput: string := "",
    guesses: seq<WordGuess> := [],
    isGameOver: bool := false,
    isGameWon: bool := false,
    maxAttempts: int := DefaultMaxAttempts)

  /** The word a scored guess spells. */
  function Spell(g: WordGuess): (w: string)
    ensures |w| == |g.letters|
    ensures forall i :: 0 <= i < |w| ==> w[i] == g.letters[i].ch
  {
    seq(|g.letters|, i requires 0 <= i < |g.letters| => g.letters[i].ch)
  }

  /** The classifications of a scored guess, in order. */
  function Results(g: WordGuess): (rs: seq<LetterResult>)
    ensures |rs| == |g.letters|
    ensures forall i :: 0 <= i < |rs| ==> rs[i] == g.letters[i].result
  {
    seq(|g.letters|, i requires 0 <= i < |g.letters| => g.letters[i].result)
  }

  /** Pairs each classification with the guessed character at the same
      position. */
  function MakeGuess(word: string, rs: seq<LetterResult>): (g: WordGuess)
    requires |rs| <= |word|
    ensures Results(g) == rs
    ensures Spell(g) == word[..|rs|]
  {
    WordGuess(seq(|rs|, i requires 0 <= i < |rs| => Letter(word[i], rs[i])))
  }

  /** A fresh session knows only its target: no input, no guesses, neither
      flag set, and the default number of attempts. */
  lemma FreshSessionDefaults(w: string)
    ensures var s := WordleUiState(targetWord := w);
      s.targetWord == w && s.currentInput == "" && s.guesses == [] &&
      !s.isGameOver && !s.isGameWon && s.maxAttempts == 6
  {
  }
}
