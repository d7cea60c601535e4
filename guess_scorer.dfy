/** The guess scorer: two passes over a guess and a working copy of the
    target. The first pass marks exact matches and consumes their target
    slots; the second marks a letter `WrongPosition` when an unconsumed copy
    is left and consumes the leftmost such copy. A consumed slot is
    overwritten with the sentinel `Consumed`. */
module GuessScorer {
  import opened WordleState

  /** The length of the result list and the input buffer, fixed in the
      source independently of the target or the number of attempts. */
  const WordLength := 6

  /** The character written over a consumed target slot. */
  const Consumed := '*'

  /** Position of the leftmost occurrence of `c` in `s`. */
  function IndexOf(s: seq<char>, c: char): (k: nat)
    requires c in s
    ensures k < |s| && s[k] == c
    ensures forall j :: 0 <= j < k ==> s[j] != c
  {
    if s[0] == c then 0 else 1 + IndexOf(s[1..], c)
  }

  // ---------------------------------------------------------------------
  // Specification of the two passes

  /** Results after the first pass: `Correct` where guess and target agree,
      `Incorrect` everywhere else, including the slots past the guess. */
  function FirstPassResults(g: string, t: string): (r: seq<LetterResult>)
    requires |g| <= WordLength && |g| <= |t|
    ensures |r| == WordLength
  {
    seq(WordLength, i requires 0 <= i < WordLength =>
      if i < |g| && g[i] == t[i] then Correct else Incorrect)
  }

  /** Working copy of the target after the first pass. */
  function FirstPassChars(g: string, t: string): (c: seq<char>)
    requires |g| <= |t|
    ensures |c| == |t|
  {
    seq(|t|, j requires 0 <= j < |t| =>
      if j < |g| && g[j] == t[j] then Consumed else t[j])
  }

  /** One iteration of the second pass, at guess position `i`. */
  function SecondPassStep(g: string, res: seq<LetterResult>, chars: seq<char>, i: nat)
    : (p: (seq<LetterResult>, seq<char>))
    requires i < |g| && i < |res|
    ensures |p.0| == |res| && |p.1| == |chars|
  {
    if res[i] != Correct && g[i] in chars then
      (res[i := WrongPosition], chars[IndexOf(chars, g[i]) := Consumed])
    else
      (res, chars)
  }

  /** The second pass run over guess positions `0 .. n-1`. */
  function SecondPass(g: string, res: seq<LetterResult>, chars: seq<char>, n: nat)
    : (p: (seq<LetterResult>, seq<char>))
    requires n <= |g| && n <= |res|
    ensures |p.0| == |res| && |p.1| == |chars|
  {
    if n == 0 then (res, chars)
    else
      var q := SecondPass(g, res, chars, n - 1);
      SecondPassStep(g, q.0, q.1, n - 1)
  }

  /** Results and working copy after both passes. */
  function ScoreState(g: string, t: string): (p: (seq<LetterResult>, seq<char>))
    requires |g| <= WordLength && |g| <= |t|
    ensures |p.0| == WordLength && |p.1| == |t|
  {
    SecondPass(g, FirstPassResults(g, t), FirstPassChars(g, t), |g|)
  }

  /** The classification the scorer returns. */
  function Score(g: string, t: string): (r: seq<LetterResult>)
    requires |g| <= WordLength && |g| <= |t|
    ensures |r| == WordLength
  {
    ScoreState(g, t).0
  }

  // ---------------------------------------------------------------------
  // The scorer as the source runs it: two loops over mutable arrays

  /** Scores `guess` against `target` in place, as the source does, and
      computes exactly `Score`. The source fails with an index error when
      the guess is longer than six characters or than the target; the
      precondition excludes those inputs. */
  method CheckGuess(guess: string, target: string) returns (result: seq<LetterResult>)
    requires |guess| <= WordLength && |guess| <= |target|
    ensures result == Score(guess, target)
  {
    var res := new LetterResult[WordLength](_ => Incorrect);
    var targetChars := new char[|target|](j requires 0 <= j < |target| => target[j]);
    for i := 0 to |guess|
      invariant forall k :: 0 <= k < WordLength ==>
        res[k] == if k < i && guess[k] == target[k] then Correct else Incorrect
      invariant forall j :: 0 <= j < |target| ==>
        targetChars[j] == if j < i && guess[j] == target[j] then Consumed else target[j]
    {
      if guess[i] == target[i] {
        res[i] := Correct;
        targetChars[i] := Consumed;
      }
    }
    assert res[..] == FirstPassResults(guess, target);
    assert targetChars[..] == FirstPassChars(guess, target);
    ghost var firstRes, firstChars := res[..], targetChars[..];
    for i := 0 to |guess|
      invariant (res[..], targetChars[..]) == SecondPass(guess, firstRes, firstChars, i)
    {
      if res[i] != Correct && guess[i] in targetChars[..] {
        res[i] := WrongPosition;
        targetChars[IndexOf(targetChars[..], guess[i])] := Consumed;
      }
    }
    result := res[..];
  }

  // ---------------------------------------------------------------------
  // Counting

  /** Occurrences of `ch` among `s[0 .. n-1]`. */
  function CountIn(s: seq<char>, ch: char, n: nat): nat
    requires n <= |s|
  {
    if n == 0 then 0 else CountIn(s, ch, n - 1) + (if s[n - 1] == ch then 1 else 0)
  }

  /** Occurrences of `ch` in `s`. */
  function Count(s: seq<char>, ch: char): nat {
    CountIn(s, ch, |s|)
  }

  /** Guess positions below `n` that hold `ch` and are not `Incorrect`. */
  function Matched(g: string, r: seq<LetterResult>, ch: char, n: nat): nat
    requires n <= |g| && n <= |r|
  {
    if n == 0 then 0
    else Matched(g, r, ch, n - 1) + (if g[n - 1] == ch && r[n - 1] != Incorrect then 1 else 0)
  }

  /** Positions below `n` that are not `Incorrect`. */
  function Claimed(r: seq<LetterResult>, n: nat): nat
    requires n <= |r|
  {
    if n == 0 then 0 else Claimed(r, n - 1) + (if r[n - 1] != Incorrect then 1 else 0)
  }

  lemma {:induction false} CountInZero(s: seq<char>, ch: char, n: nat)
    requires n <= |s|
    ensures CountIn(s, ch, n) == 0 <==> forall j :: 0 <= j < n ==> s[j] != ch
  {
    if n > 0 {
      CountInZero(s, ch, n - 1);
    }
  }

  /** A character occurs in a sequence exactly when its count is positive. */
  lemma CountZeroIffAbsent(s: seq<char>, ch: char)
    ensures Count(s, ch) == 0 <==> ch !in s
  {
    CountInZero(s, ch, |s|);
  }

  lemma {:induction false} CountInUpdate(s: seq<char>, k: nat, x: char, ch: char, n: nat)
    requires k < |s| && n <= |s|
    ensures CountIn(s[k := x], ch, n) + (if k < n && s[k] == ch then 1 else 0)
         == CountIn(s, ch, n) + (if k < n && x == ch then 1 else 0)
  {
    if n > 0 {
      CountInUpdate(s, k, x, ch, n - 1);
    }
  }

  lemma {:induction false} MatchedUpdate(g: string, r: seq<LetterResult>, k: nat, v: LetterResult, ch: char, n: nat)
    requires n <= |g| && n <= |r| && k < |r|
    ensures Matched(g, r[k := v], ch, n) + (if k < n && g[k] == ch && r[k] != Incorrect then 1 else 0)
         == Matched(g, r, ch, n) + (if k < n && g[k] == ch && v != Incorrect then 1 else 0)
  {
    if n > 0 {
      MatchedUpdate(g, r, k, v, ch, n - 1);
    }
  }

  lemma {:induction false} ClaimedUpdate(r: seq<LetterResult>, k: nat, v: LetterResult, n: nat)
    requires n <= |r| && k < |r|
    ensures Claimed(r[k := v], n) + (if k < n && r[k] != Incorrect then 1 else 0)
         == Claimed(r, n) + (if k < n && v != Incorrect then 1 else 0)
  {
    if n > 0 {
      ClaimedUpdate(r, k, v, n - 1);
    }
  }

  /** Matched positions never outnumber the guess's copies of the letter,
      and when they are fewer some copy is `Incorrect`. */
  lemma {:induction false} MatchedBelowGuessCount(g: string, r: seq<LetterResult>, ch: char, n: nat)
    requires n <= |g| && n <= |r|
    ensures Matched(g, r, ch, n) <= CountIn(g, ch, n)
    ensures Matched(g, r, ch, n) < CountIn(g, ch, n) ==>
      exists k :: 0 <= k < n && g[k] == ch && r[k] == Incorrect
  {
    if n > 0 {
      MatchedBelowGuessCount(g, r, ch, n - 1);
    }
  }

  // ---------------------------------------------------------------------
  // The first pass

  /** After the first pass, each matched copy of a letter plus each copy
      left in the working target adds up to the target's copies. */
  lemma {:induction false} FirstPassCountIn(g: string, t: string, ch: char, n: nat)
    requires |g| <= WordLength && |g| <= |t| && n <= |t| && ch != Consumed
    ensures Matched(g, FirstPassResults(g, t), ch, if n < |g| then n else |g|)
          + CountIn(FirstPassChars(g, t), ch, n) == CountIn(t, ch, n)
  {
    if n > 0 {
      FirstPassCountIn(g, t, ch, n - 1);
    }
  }

  /** After the first pass, every claimed position consumed exactly one
      target slot that was not already the sentinel. */
  lemma {:induction false} FirstPassClaimedIn(g: string, t: string, n: nat)
    requires |g| <= WordLength && |g| <= |t| && n <= |t| && Consumed !in g
    ensures Claimed(FirstPassResults(g, t), if n < |g| then n else |g|) + CountIn(t, Consumed, n)
         == CountIn(FirstPassChars(g, t), Consumed, n)
  {
    if n > 0 {
      FirstPassClaimedIn(g, t, n - 1);
      if n <= |g| {
        assert g[n - 1] in g;
      }
    }
  }

  // ---------------------------------------------------------------------
  // The second pass

  /** What holds after the second pass has visited positions `0 .. n-1`:
      positions not yet visited keep their first-pass result; a visited
      position is `Correct` exactly when the first pass made it so; the
      working copy holds only target characters or the sentinel; a
      `WrongPosition` letter occurred in the working copy, hence in the
      target or as the sentinel; and an `Incorrect` letter (other than the
      sentinel) has no copy left. */
  lemma {:induction false} SecondPassFacts(g: string, t: string, n: nat)
    requires |g| <= WordLength && |g| <= |t| && n <= |g|
    ensures var p := SecondPass(g, FirstPassResults(g, t), FirstPassChars(g, t), n);
      var r1 := FirstPassResults(g, t);
      (forall k :: n <= k < WordLength ==> p.0[k] == r1[k]) &&
      (forall k :: 0 <= k < n ==> (p.0[k] == Correct <==> r1[k] == Correct)) &&
      (forall j :: 0 <= j < |t| ==> p.1[j] == t[j] || p.1[j] == Consumed) &&
      (forall k :: 0 <= k < n && p.0[k] == WrongPosition ==> g[k] == Consumed || g[k] in t) &&
      (forall k :: 0 <= k < n && p.0[k] == Incorrect && g[k] != Consumed ==> g[k] !in p.1)
  {
    var r1, c1 := FirstPassResults(g, t), FirstPassChars(g, t);
    if n > 0 {
      SecondPassFacts(g, t, n - 1);
      var q := SecondPass(g, r1, c1, n - 1);
      var i := n - 1;
      if q.0[i] != Correct && g[i] in q.1 {
        var idx := IndexOf(q.1, g[i]);
        var p := (q.0[i := WrongPosition], q.1[idx := Consumed]);
        assert p == SecondPass(g, r1, c1, n);
        if g[i] != Consumed {
          assert q.1[idx] == t[idx];
        }
        forall k | 0 <= k < n && p.0[k] == Incorrect && g[k] != Consumed
          ensures g[k] !in p.1
        {
          assert k < i;
          assert g[k] !in q.1;
        }
      }
    }
  }

  /** Second pass, per letter: matched copies plus copies left in the
      working target add up to the target's copies. */
  lemma {:induction false} SecondPassCount(g: string, t: string, ch: char, n: nat)
    requires |g| <= WordLength && |g| <= |t| && n <= |g| && ch != Consumed
    ensures var p := SecondPass(g, FirstPassResults(g, t), FirstPassChars(g, t), n);
      Matched(g, p.0, ch, |g|) + Count(p.1, ch) == Count(t, ch)
  {
    var r1, c1 := FirstPassResults(g, t), FirstPassChars(g, t);
    if n == 0 {
      FirstPassCountIn(g, t, ch, |t|);
    } else {
      SecondPassCount(g, t, ch, n - 1);
      SecondPassFacts(g, t, n - 1);
      var q := SecondPass(g, r1, c1, n - 1);
      var i := n - 1;
      if q.0[i] != Correct && g[i] in q.1 {
        var idx := IndexOf(q.1, g[i]);
        assert q.0[i] == Incorrect;
        MatchedUpdate(g, q.0, i, WrongPosition, ch, |g|);
        CountInUpdate(q.1, idx, Consumed, ch, |q.1|);
      }
    }
  }

  /** Second pass, over all letters, for a guess without the sentinel:
      claimed positions equal freshly consumed target slots. */
  lemma {:induction false} SecondPassClaimed(g: string, t: string, n: nat)
    requires |g| <= WordLength && |g| <= |t| && n <= |g| && Consumed !in g
    ensures var p := SecondPass(g, FirstPassResults(g, t), FirstPassChars(g, t), n);
      Claimed(p.0, |g|) + Count(t, Consumed) == Count(p.1, Consumed)
  {
    var r1, c1 := FirstPassResults(g, t), FirstPassChars(g, t);
    if n == 0 {
      FirstPassClaimedIn(g, t, |t|);
    } else {
      SecondPassClaimed(g, t, n - 1);
      SecondPassFacts(g, t, n - 1);
      var q := SecondPass(g, r1, c1, n - 1);
      var i := n - 1;
      if q.0[i] != Correct && g[i] in q.1 {
        var idx := IndexOf(q.1, g[i]);
        assert q.0[i] == Incorrect;
        assert g[i] in g;
        ClaimedUpdate(q.0, i, WrongPosition, |g|);
        CountInUpdate(q.1, idx, Consumed, Consumed, |q.1|);
      }
    }
  }

  // ---------------------------------------------------------------------
  // Properties of the score

  /** A position is `Correct` exactly when guess and target agree there;
      positions past the guess are `Incorrect`. */
  lemma CorrectIffSameLetter(g: string, t: string, i: nat)
    requires |g| <= WordLength && |g| <= |t| && i < WordLength
    ensures Score(g, t)[i] == Correct <==> i < |g| && g[i] == t[i]
    ensures i >= |g| ==> Score(g, t)[i] == Incorrect
  {
    SecondPassFacts(g, t, |g|);
  }

  /** A `WrongPosition` letter differs from the target letter at its
      position and occurs elsewhere in the target, unless it is the
      sentinel itself. */
  lemma WrongPositionSound(g: string, t: string, i: nat)
    requires |g| <= WordLength && |g| <= |t| && i < WordLength
    requires Score(g, t)[i] == WrongPosition
    ensures i < |g| && g[i] != t[i]
    ensures g[i] == Consumed || g[i] in t
  {
    SecondPassFacts(g, t, |g|);
  }

  /** Scoring a word against itself marks every letter `Correct`. */
  lemma ScoreSelfAllCorrect(t: string)
    requires |t| == WordLength
    ensures Score(t, t) == seq(WordLength, _ => Correct)
  {
    forall i | 0 <= i < WordLength ensures Score(t, t)[i] == Correct {
      CorrectIffSameLetter(t, t, i);
    }
  }

  /** Each copy of a letter in the target is claimed by at most one guess
      position: matched copies plus copies left unconsumed are exactly the
      target's copies. */
  lemma MatchedPlusLeftIsTargetCount(g: string, t: string, ch: char)
    requires |g| <= WordLength && |g| <= |t| && ch != Consumed
    ensures Matched(g, Score(g, t), ch, |g|) + Count(ScoreState(g, t).1, ch) == Count(t, ch)
  {
    SecondPassCount(g, t, ch, |g|);
  }

  /** Duplicate-letter fairness: a letter is matched (`Correct` or
      `WrongPosition`) exactly as often as the smaller of its counts in the
      guess and in the target. */
  lemma MatchedIsMinCount(g: string, t: string, ch: char)
    requires |g| <= WordLength && |g| <= |t| && ch != Consumed
    ensures var m := Matched(g, Score(g, t), ch, |g|);
      m <= Count(g, ch) && m <= Count(t, ch) &&
      (m == Count(g, ch) || m == Count(t, ch))
  {
    var p := ScoreState(g, t);
    SecondPassCount(g, t, ch, |g|);
    SecondPassFacts(g, t, |g|);
    MatchedBelowGuessCount(g, p.0, ch, |g|);
    if Matched(g, p.0, ch, |g|) < Count(g, ch) {
      var k :| 0 <= k < |g| && g[k] == ch && p.0[k] == Incorrect;
      CountZeroIffAbsent(p.1, ch);
    }
  }

  /** An `Incorrect` letter in the guess means every copy of it in the
      target is already claimed by another position. */
  lemma IncorrectMeansExhausted(g: string, t: string, i: nat)
    requires |g| <= WordLength && |g| <= |t| && i < |g| && g[i] != Consumed
    requires Score(g, t)[i] == Incorrect
    ensures Matched(g, Score(g, t), g[i], |g|) == Count(t, g[i])
  {
    var p := ScoreState(g, t);
    SecondPassCount(g, t, g[i], |g|);
    SecondPassFacts(g, t, |g|);
    CountZeroIffAbsent(p.1, g[i]);
  }

  /** For a guess without the sentinel, the number of matched positions is
      the number of target slots the scorer consumed: no slot is consumed
      twice and none without a match. */
  lemma ClaimedIsConsumedSlots(g: string, t: string)
    requires |g| <= WordLength && |g| <= |t| && Consumed !in g
    ensures Claimed(Score(g, t), |g|) == Count(ScoreState(g, t).1, Consumed) - Count(t, Consumed)
  {
    SecondPassClaimed(g, t, |g|);
  }

  /** Running the second pass on to iteration `n` leaves every result below
      `m` as it was after iteration `m`: iterations `m .. n-1` write only
      positions at or past `m`. */
  lemma {:induction false} SecondPassKeepsVisited(g: string, res: seq<LetterResult>, chars: seq<char>, m: nat, n: nat)
    requires m <= n <= |g| && n <= |res|
    ensures forall k :: 0 <= k < m ==> SecondPass(g, res, chars, n).0[k] == SecondPass(g, res, chars, m).0[k]
  {
    if m < n {
      SecondPassKeepsVisited(g, res, chars, m, n - 1);
    }
  }

  /** The sentinel is not reserved: a guess character equal to it finds a
      consumed slot and is marked `WrongPosition`, although the target does
      not contain it. */
  lemma SentinelMatchesConsumedSlot()
    ensures Consumed !in "PLANET"
    ensures Score("P*QQQQ", "PLANET")[1] == WrongPosition
  {
    var g, t := "P*QQQQ", "PLANET";
    var r1, c1 := FirstPassResults(g, t), FirstPassChars(g, t);
    assert r1[1] == Incorrect;
    assert SecondPass(g, r1, c1, 1).1[0] == Consumed;
    SecondPassKeepsVisited(g, r1, c1, 2, 6);
  }

  /** The two passes on a guess and target that share repeated letters:
      `AABBCC` against `ABABAB` scores Correct, WrongPosition,
      WrongPosition, Correct, Incorrect, Incorrect. */
  lemma ScoreRepeatedLetters()
    ensures Score("AABBCC", "ABABAB")
         == [Correct, WrongPosition, WrongPosition, Correct, Incorrect, Incorrect]
  {
    var g, t := "AABBCC", "ABABAB";
    var r1, c1 := FirstPassResults(g, t), FirstPassChars(g, t);
    assert r1 == [Correct, Incorrect, Incorrect, Correct, Incorrect, Incorrect];
    assert c1 == "*BA*AB";
    assert SecondPass(g, r1, c1, 1) == (r1, c1);
    assert c1[2] == 'A' && IndexOf(c1, 'A') == 2;
    var r2, c2 := r1[1 := WrongPosition], c1[2 := Consumed];
    assert c2 == "*B**AB";
    assert SecondPass(g, r1, c1, 2) == (r2, c2);
    assert IndexOf(c2, 'B') == 1;
    var r3, c3 := r2[2 := WrongPosition], c2[1 := Consumed];
    assert c3 == "****AB";
    assert SecondPass(g, r1, c1, 3) == (r3, c3);
    assert SecondPass(g, r1, c1, 4) == SecondPass(g, r1, c1, 3);
    assert SecondPass(g, r1, c1, 5) == SecondPass(g, r1, c1, 3);
  }
}
