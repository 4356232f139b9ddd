/** `update` (src/main.rs:85-112): narrowing the solver's state with one
    round of feedback. `Step` and `Run` follow the source's loop position by
    position; `Partial` describes the outcome without reference to the
    order of the loop. */
module Updating {
  import opened Oracle
  import opened SolverState

  type Pair = (char, CharResult)

  /** Each letter of the word paired with its mark, stopping at the
      shorter of the two (src/main.rs:86). */
  function Pairs(word: Word, result: seq<CharResult>): (p: seq<Pair>)
    ensures |p| <= |word| && |p| <= |result|
    ensures |p| == |word| || |p| == |result|
    ensures forall i :: 0 <= i < |p| ==> p[i] == (word[i], result[i])
  {
    var n := if |word| <= |result| then |word| else |result|;
    seq(n, i requires 0 <= i < n => (word[i], result[i]))
  }

  /** The round reports `l` Yellow or Green at some position
      (src/main.rs:91). */
  predicate Confirmed(pairs: seq<Pair>, l: char) {
    (l, Yellow) in pairs || (l, Green) in pairs
  }

  /** The body of the loop for position `i` (src/main.rs:89-110). Only the
      letter sets and the known-good set change. A Green pins position `i`
      to its letter `l`; any other mark removes `l` there. An unconfirmed
      Grey removes `l` from every position; otherwise the other positions
      stay as they are. The known-good set gains `l` exactly when it is
      reported present. */
  function Step(s: WordlSolver, pairs: seq<Pair>, i: nat): (t: WordlSolver)
    requires i < |pairs| && i < |s.letters|
    ensures t.wordLen == s.wordLen && t.targets == s.targets && t.guesses == s.guesses
    ensures |t.letters| == |s.letters|
    ensures t.letters[i] == if pairs[i].1 == Green then {pairs[i].0} else s.letters[i] - {pairs[i].0}
    ensures forall k :: 0 <= k < |s.letters| && k != i ==>
      t.letters[k] == if pairs[i].1 == Grey && !Confirmed(pairs, pairs[i].0)
                      then s.letters[k] - {pairs[i].0} else s.letters[k]
    ensures t.knownGood == if pairs[i].1 == Grey then s.knownGood else s.knownGood + {pairs[i].0}
  {
    var l := pairs[i].0;
    match pairs[i].1
    case Grey =>
      if Confirmed(pairs, l) then s.(letters := s.letters[i := s.letters[i] - {l}])
      else s.(letters := seq(|s.letters|, k requires 0 <= k < |s.letters| => s.letters[k] - {l}))
    case Yellow =>
      s.(letters := s.letters[i := s.letters[i] - {l}], knownGood := s.knownGood + {l})
    case Green =>
      s.(letters := s.letters[i := {l}], knownGood := s.knownGood + {l})
  }

  /** The loop from position `i` on. Only the letter sets and the
      known-good set change, and the known-good set only grows. */
  function Run(s: WordlSolver, pairs: seq<Pair>, i: nat): (t: WordlSolver)
    requires i <= |pairs| <= |s.letters|
    ensures t.wordLen == s.wordLen && t.targets == s.targets && t.guesses == s.guesses
    ensures |t.letters| == |s.letters|
    ensures s.knownGood <= t.knownGood
    decreases |pairs| - i
  {
    if i == |pairs| then s else Run(Step(s, pairs, i), pairs, i + 1)
  }

  /** `update`. The source indexes `letters` by position, so the round may
      not be longer than the word length. */
  function Update(s: WordlSolver, word: Word, result: seq<CharResult>): (t: WordlSolver)
    requires |Pairs(word, result)| <= |s.letters|
    ensures t.wordLen == s.wordLen && t.targets == s.targets && t.guesses == s.guesses
    ensures |t.letters| == |s.letters|
    ensures s.knownGood <= t.knownGood
  {
    Run(s, Pairs(word, result), 0)
  }

  // ---------------------------------------------------------------------
  // The outcome of the loop, independent of its order

  /** Letters reported Grey among the first `i` positions and never
      confirmed in the round: these leave every position. */
  function RuledOut(pairs: seq<Pair>, i: nat): set<char>
    requires i <= |pairs|
  {
    set j | 0 <= j < i && pairs[j].1 == Grey && !Confirmed(pairs, pairs[j].0) :: pairs[j].0
  }

  /** Letters reported Yellow or Green among the first `i` positions. */
  function Present(pairs: seq<Pair>, i: nat): set<char>
    requires i <= |pairs|
  {
    set j | 0 <= j < i && pairs[j].1 != Grey :: pairs[j].0
  }

  /** The state after the first `i` positions: a Green position holds just
      its letter; any other position loses the ruled-out letters and, if it
      has been visited, its own letter; the known-good set gains the letters
      reported present. */
  function Partial(s: WordlSolver, pairs: seq<Pair>, i: nat): (t: WordlSolver)
    requires i <= |pairs| <= |s.letters|
  {
    s.(letters := seq(|s.letters|, k requires 0 <= k < |s.letters| =>
         if k < i && pairs[k].1 == Green then {pairs[k].0}
         else s.letters[k] - RuledOut(pairs, i) - (if k < i then {pairs[k].0} else {})),
       knownGood := s.knownGood + Present(pairs, i))
  }

  lemma PartialStart(s: WordlSolver, pairs: seq<Pair>)
    requires |pairs| <= |s.letters|
    ensures Partial(s, pairs, 0) == s
  {
    assert RuledOut(pairs, 0) == {};
    assert Present(pairs, 0) == {};
    var t := Partial(s, pairs, 0);
    forall k | 0 <= k < |s.letters|
      ensures t.letters[k] == s.letters[k]
    {
    }
    assert t.letters == s.letters;
  }

  /** One iteration of the loop takes the closed form for `i` positions to
      the closed form for `i + 1`. */
  lemma StepExtends(s: WordlSolver, pairs: seq<Pair>, i: nat)
    requires i < |pairs| <= |s.letters|
    ensures Step(Partial(s, pairs, i), pairs, i) == Partial(s, pairs, i + 1)
  {
    var (l, r) := pairs[i];
    var before := Partial(s, pairs, i);
    var after := Partial(s, pairs, i + 1);
    var t := Step(before, pairs, i);
    if r == Grey && !Confirmed(pairs, l) {
      assert RuledOut(pairs, i + 1) == RuledOut(pairs, i) + {l};
      assert Present(pairs, i + 1) == Present(pairs, i);
      forall k | 0 <= k < |s.letters|
        ensures t.letters[k] == after.letters[k]
      {
        if k < i && pairs[k].1 == Green {
          assert pairs[k] in pairs;
          assert pairs[k].0 != l;
        }
      }
    } else {
      assert RuledOut(pairs, i + 1) == RuledOut(pairs, i);
      if r == Grey {
        assert Present(pairs, i + 1) == Present(pairs, i);
      } else {
        assert Present(pairs, i + 1) == Present(pairs, i) + {l};
      }
      forall k | 0 <= k < |s.letters|
        ensures t.letters[k] == after.letters[k]
      {
      }
    }
    assert t.letters == after.letters;
  }

  /** Running the rest of the loop from the closed form for `i` positions
      reaches the closed form for the whole round. */
  lemma {:induction false} RunFromPartial(s: WordlSolver, pairs: seq<Pair>, i: nat)
    requires i <= |pairs| <= |s.letters|
    ensures Run(Partial(s, pairs, i), pairs, i) == Partial(s, pairs, |pairs|)
    decreases |pairs| - i
  {
    if i < |pairs| {
      StepExtends(s, pairs, i);
      RunFromPartial(s, pairs, i + 1);
    }
  }

  /** `update` yields the order-free closed form of the whole round. */
  lemma UpdateClosedForm(s: WordlSolver, word: Word, result: seq<CharResult>)
    requires |Pairs(word, result)| <= |s.letters|
    ensures Update(s, word, result) == Partial(s, Pairs(word, result), |Pairs(word, result)|)
  {
    var pairs := Pairs(word, result);
    PartialStart(s, pairs);
    RunFromPartial(s, pairs, 0);
  }

  // ---------------------------------------------------------------------
  // What one round does to a position

  /** Green at `i`: the position admits exactly its letter, and the letter
      is known to be in the secret. */
  lemma UpdateGreen(s: WordlSolver, word: Word, result: seq<CharResult>, i: nat)
    requires |Pairs(word, result)| <= |s.letters|
    requires i < |Pairs(word, result)| && result[i] == Green
    ensures Update(s, word, result).letters[i] == {word[i]}
    ensures word[i] in Update(s, word, result).knownGood
  {
    UpdateClosedForm(s, word, result);
    var pairs := Pairs(word, result);
    assert pairs[i] == (word[i], Green);
    assert word[i] in Present(pairs, |pairs|);
  }

  /** Yellow at `i`: the position no longer admits the letter, and the
      letter is known to be in the secret. */
  lemma UpdateYellow(s: WordlSolver, word: Word, result: seq<CharResult>, i: nat)
    requires |Pairs(word, result)| <= |s.letters|
    requires i < |Pairs(word, result)| && result[i] == Yellow
    ensures word[i] !in Update(s, word, result).letters[i]
    ensures word[i] in Update(s, word, result).knownGood
  {
    UpdateClosedForm(s, word, result);
    var pairs := Pairs(word, result);
    assert pairs[i] == (word[i], Yellow);
    assert word[i] in Present(pairs, |pairs|);
  }

  /** Grey at `i`: the position no longer admits the letter. If the letter
      is not reported Yellow or Green anywhere in the round, no position
      admits it any more. */
  lemma UpdateGrey(s: WordlSolver, word: Word, result: seq<CharResult>, i: nat)
    requires |Pairs(word, result)| <= |s.letters|
    requires i < |Pairs(word, result)| && result[i] == Grey
    ensures word[i] !in Update(s, word, result).letters[i]
    ensures !Confirmed(Pairs(word, result), word[i]) ==>
      forall k :: 0 <= k < |s.letters| ==> word[i] !in Update(s, word, result).letters[k]
  {
    UpdateClosedForm(s, word, result);
    var pairs := Pairs(word, result);
    var t := Update(s, word, result);
    var l := word[i];
    assert pairs[i] == (l, Grey);
    if !Confirmed(pairs, l) {
      assert l in RuledOut(pairs, |pairs|);
      forall k | 0 <= k < |s.letters|
        ensures l !in t.letters[k]
      {
        if k < |pairs| && pairs[k].1 == Green {
          assert pairs[k] in pairs;
        }
      }
    }
  }

  /** A letter reported Yellow or Green somewhere in the round is removed
      only where it is itself reported: at every other position that is not
      pinned by a Green, it stays admissible exactly if it was. */
  lemma ConfirmedLetterStaysElsewhere(s: WordlSolver, word: Word, result: seq<CharResult>, l: char, k: nat)
    requires |Pairs(word, result)| <= |s.letters|
    requires Confirmed(Pairs(word, result), l)
    requires k < |s.letters|
    requires k < |Pairs(word, result)| ==> result[k] != Green && word[k] != l
    ensures l in Update(s, word, result).letters[k] <==> l in s.letters[k]
  {
    UpdateClosedForm(s, word, result);
    var pairs := Pairs(word, result);
    assert l !in RuledOut(pairs, |pairs|);
  }

  /** The known-good set never loses a letter and gains exactly the letters
      reported Yellow or Green; a Grey alone never adds one. */
  lemma UpdateKnownGood(s: WordlSolver, word: Word, result: seq<CharResult>)
    requires |Pairs(word, result)| <= |s.letters|
    ensures forall l :: l in Update(s, word, result).knownGood <==>
      l in s.knownGood || exists j :: 0 <= j < |Pairs(word, result)| && word[j] == l && result[j] != Grey
  {
    UpdateClosedForm(s, word, result);
    var pairs := Pairs(word, result);
    forall l | (exists j :: 0 <= j < |pairs| && word[j] == l && result[j] != Grey)
      ensures l in Present(pairs, |pairs|)
    {
      var j :| 0 <= j < |pairs| && word[j] == l && result[j] != Grey;
      assert pairs[j] == (l, result[j]);
    }
  }

  /** A position pinned to the single letter `p` keeps `{p}` through a round
      in which `p` is never reported Grey or Yellow and no Green names
      another letter at that position. */
  lemma SingletonUnaffected(s: WordlSolver, word: Word, result: seq<CharResult>, k: nat, p: char)
    requires |Pairs(word, result)| <= |s.letters|
    requires k < |s.letters| && s.letters[k] == {p}
    requires forall j :: 0 <= j < |Pairs(word, result)| && word[j] == p ==> result[j] == Green
    requires k < |Pairs(word, result)| && result[k] == Green ==> word[k] == p
    ensures Update(s, word, result).letters[k] == {p}
  {
    UpdateClosedForm(s, word, result);
    var pairs := Pairs(word, result);
    assert p !in RuledOut(pairs, |pairs|);
  }
}
