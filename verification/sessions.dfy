/** How `guess`, `score` and `update` fit together over a solving session
    (the loop of src/main.rs:197-208): feedback from the real oracle never
    rules out the secret, only narrows the candidates, and always rules out
    a wrong guess, so `guess` never reaches its `unreachable!`. */
module Sessions {
  import opened Results
  import opened Oracle
  import opened SolverState
  import opened Updating
  import opened Ranking

  /** A letter every position loses (Grey and never confirmed in the round)
      is not in the secret. */
  lemma RuledOutNotInSecret(word: Word, secret: Word, l: char)
    requires |word| == |secret|
    requires l in RuledOut(Pairs(word, Feedback(word, secret)), |secret|)
    ensures l !in secret
  {
    var marks := Feedback(word, secret);
    var pairs := Pairs(word, marks);
    var j :| 0 <= j < |secret| && pairs[j].1 == Grey && !Confirmed(pairs, pairs[j].0) && pairs[j].0 == l;
    if l in secret {
      GreyButPresent(word, secret, j);
      assert false;
    }
  }

  /** A letter reported Yellow or Green is in the secret. */
  lemma PresentInSecret(word: Word, secret: Word, j: nat)
    requires j < |secret| <= |word|
    requires Feedback(word, secret)[j] != Grey
    ensures word[j] in secret
  {
    if word[j] !in secret {
      AbsentLetterGrey(word, secret, j);
    }
  }

  /** Soundness of `update`: feeding back what the oracle says about any
      guess keeps the secret among the words the filter admits. */
  lemma UpdateKeepsSecret(s: WordlSolver, word: Word, secret: Word)
    requires |word| == |secret| == |s.letters|
    requires Admissible(s, secret)
    ensures Admissible(Update(s, word, Feedback(word, secret)), secret)
  {
    var marks := Feedback(word, secret);
    var pairs := Pairs(word, marks);
    var t := Update(s, word, marks);
    UpdateClosedForm(s, word, marks);
    forall k | 0 <= k < |secret|
      ensures secret[k] in t.letters[k]
    {
      if marks[k] != Green {
        if secret[k] in RuledOut(pairs, |pairs|) {
          RuledOutNotInSecret(word, secret, secret[k]);
        }
      }
    }
    forall l | l in t.knownGood
      ensures l in secret
    {
      if l !in s.knownGood {
        var j :| 0 <= j < |pairs| && pairs[j].1 != Grey && pairs[j].0 == l;
        PresentInSecret(word, secret, j);
      }
    }
  }

  /** Narrowing: while the secret is admissible, a round of real feedback
      only shrinks every position's letters and only grows the known-good
      set, so every word admitted afterwards was admitted before. */
  lemma UpdateNarrows(s: WordlSolver, word: Word, secret: Word)
    requires |word| == |secret| == |s.letters|
    requires Admissible(s, secret)
    ensures forall k :: 0 <= k < |s.letters| ==>
      Update(s, word, Feedback(word, secret)).letters[k] <= s.letters[k]
    ensures s.knownGood <= Update(s, word, Feedback(word, secret)).knownGood
    ensures forall w :: Admissible(Update(s, word, Feedback(word, secret)), w) ==> Admissible(s, w)
  {
    var marks := Feedback(word, secret);
    var t := Update(s, word, marks);
    UpdateClosedForm(s, word, marks);
    forall k | 0 <= k < |s.letters|
      ensures t.letters[k] <= s.letters[k]
    {
    }
  }

  /** The candidates after a round of real feedback are among those before,
      and the secret, if it is a target word, is still one of them. */
  lemma CandidatesNarrow(s: WordlSolver, word: Word, secret: Word)
    requires |word| == |secret| == |s.letters|
    requires Admissible(s, secret)
    ensures forall w :: w in Candidates(Update(s, word, Feedback(word, secret))) ==> w in Candidates(s)
    ensures secret in s.targets ==> secret in Candidates(Update(s, word, Feedback(word, secret)))
  {
    UpdateNarrows(s, word, secret);
    UpdateKeepsSecret(s, word, secret);
  }

  /** A wrong guess of the right length is ruled out by its own feedback:
      some position is not Green, and that position stops admitting the
      guessed letter. */
  lemma WrongGuessRuledOut(s: WordlSolver, word: Word, secret: Word)
    requires |word| == |secret| == |s.letters|
    requires word != secret
    ensures !Admissible(Update(s, word, Feedback(word, secret)), word)
  {
    var marks := Feedback(word, secret);
    var k :| 0 <= k < |secret| && word[k] != secret[k];
    if marks[k] == Yellow {
      UpdateYellow(s, word, marks, k);
    } else {
      UpdateGrey(s, word, marks, k);
    }
  }

  /** A position already pinned to one letter stays pinned through a round
      of real feedback while the secret is admissible. */
  lemma PinnedStaysPinned(s: WordlSolver, word: Word, secret: Word, k: nat, p: char)
    requires |word| == |secret| == |s.letters|
    requires Admissible(s, secret)
    requires k < |s.letters| && s.letters[k] == {p}
    ensures Update(s, word, Feedback(word, secret)).letters[k] == {p}
  {
    var marks := Feedback(word, secret);
    var pairs := Pairs(word, marks);
    UpdateClosedForm(s, word, marks);
    assert secret[k] == p;
    if p in RuledOut(pairs, |pairs|) {
      RuledOutNotInSecret(word, secret, p);
    }
  }

  /** While the secret is a target word the filter admits, `guess` does not
      fail, and once the secret is the only survivor it is the answer. */
  lemma GuessWhileSecretAdmissible(s: WordlSolver, secret: Word)
    requires WellFormed(s)
    requires secret in s.targets && Admissible(s, secret)
    ensures Guess(s).Ok?
    ensures |Candidates(s)| == 1 ==> Guess(s) == Ok(secret)
  {
    assert secret in Candidates(s);
  }

  /** The state after a session's rounds: each guessed word in turn, fed
      back with the oracle's answer for the secret. */
  function Replay(s: WordlSolver, secret: Word, words: seq<Word>): (t: WordlSolver)
    requires |secret| == |s.letters|
    requires forall w :: w in words ==> |w| == |secret|
    ensures t.wordLen == s.wordLen && t.targets == s.targets && |t.letters| == |s.letters|
    decreases |words|
  {
    if |words| == 0 then s
    else
      assert words[0] in words;
      assert forall w :: w in words[1..] ==> w in words;
      Replay(Update(s, words[0], Feedback(words[0], secret)), secret, words[1..])
  }

  lemma {:induction false} ReplayKeepsSecret(s: WordlSolver, secret: Word, words: seq<Word>)
    requires |secret| == |s.letters|
    requires forall w :: w in words ==> |w| == |secret|
    requires Admissible(s, secret)
    ensures Admissible(Replay(s, secret, words), secret)
    decreases |words|
  {
    if |words| > 0 {
      assert words[0] in words;
      assert forall w :: w in words[1..] ==> w in words;
      UpdateKeepsSecret(s, words[0], secret);
      ReplayKeepsSecret(Update(s, words[0], Feedback(words[0], secret)), secret, words[1..]);
    }
  }

  /** However many rounds of real feedback a fresh solver receives, `guess`
      never fails when the secret is a lowercase target word: the
      `unreachable!` of the source is indeed unreachable. */
  lemma SessionNeverImpossible(wordLen: nat, targets: seq<Word>, guesses: seq<Word>, secret: Word, words: seq<Word>)
    requires forall w :: w in targets ==> |w| == wordLen
    requires secret in targets && Lowercase(secret)
    requires forall w :: w in words ==> |w| == wordLen
    ensures Guess(Replay(New(wordLen, targets, guesses), secret, words)).Ok?
  {
    var s := New(wordLen, targets, guesses);
    ReplayKeepsSecret(s, secret, words);
    GuessWhileSecretAdmissible(Replay(s, secret, words), secret);
  }
}
