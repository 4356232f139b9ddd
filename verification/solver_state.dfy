/** The solver's state `WordlSolver` (src/main.rs:5-27, 114-122) and the
    candidate filter at the start of `guess` (src/main.rs:30-42). */
module SolverState {

  type Word = seq<char>

  /** `WordlSolver`: the word length, the two vocabularies, one set of
      still-admissible letters per position, and the letters known to occur
      somewhere in the secret. */
  datatype WordlSolver = WordlSolver(
    wordLen: nat,
    targets: seq<Word>,
    guesses: seq<Word>,
    letters: seq<set<char>>,
    knownGood: set<char>)

  /** The letters `'a'..='z'` every position starts with. */
  const Alphabet: set<char> := set c: char | 'a' <= c <= 'z'

  predicate Lowercase(w: Word) {
    forall i :: 0 <= i < |w| ==> 'a' <= w[i] <= 'z'
  }

  /** The vocabularies as the loader leaves them: every target word has the
      solver's length, and there is one letter set per position. */
  predicate WellFormed(s: WordlSolver) {
    && |s.letters| == s.wordLen
    && forall w :: w in s.targets ==> |w| == s.wordLen
  }

  /** First filter of `guess`: every letter is admissible at its position.
      `zip` stops at the shorter side, so only the common prefix is
      checked. */
  predicate FitsLetters(letters: seq<set<char>>, w: Word) {
    forall i :: 0 <= i < |w| && i < |letters| ==> w[i] in letters[i]
  }

  /** Second filter of `guess`: the word contains every known-good letter. */
  predicate HasKnownGood(knownGood: set<char>, w: Word) {
    forall l :: l in knownGood ==> l in w
  }

  /** A word survives both filters. */
  predicate Admissible(s: WordlSolver, w: Word) {
    FitsLetters(s.letters, w) && HasKnownGood(s.knownGood, w)
  }

  /** The empty state for `word_len` positions over the given vocabularies
      (`WordlSolver::new`). Before any feedback a word of the right length
      survives the filter exactly when it is lowercase. */
  function New(wordLen: nat, targets: seq<Word>, guesses: seq<Word>): (s: WordlSolver)
    ensures s.wordLen == wordLen && s.targets == targets && s.guesses == guesses
    ensures |s.letters| == wordLen
    ensures s.knownGood == {}
    ensures forall w :: |w| == wordLen ==> (Admissible(s, w) <==> Lowercase(w))
  {
    var s := WordlSolver(wordLen, targets, guesses, seq(wordLen, _ => Alphabet), {});
    assert forall w :: |w| == wordLen ==> (FitsLetters(s.letters, w) <==> Lowercase(w));
    s
  }

  /** `reset`: back to the state `new` builds for the same length and
      vocabularies, whatever feedback came before. */
  function Reset(s: WordlSolver): (r: WordlSolver)
    ensures r == New(s.wordLen, s.targets, s.guesses)
  {
    s.(letters := seq(s.wordLen, _ => Alphabet), knownGood := {})
  }

  /** `a` is `b` with some elements left out, the rest in their order. */
  predicate Subsequence(a: seq<Word>, b: seq<Word>)
    decreases |b|
  {
    |a| == 0 ||
    (|b| > 0 && ((a[0] == b[0] && Subsequence(a[1..], b[1..])) || Subsequence(a, b[1..])))
  }

  /** Leaving out elements twice is leaving out elements once. */
  lemma {:induction false} SubsequenceTrans(a: seq<Word>, b: seq<Word>, c: seq<Word>)
    requires Subsequence(a, b) && Subsequence(b, c)
    ensures Subsequence(a, c)
    decreases |c|
  {
    if |a| > 0 {
      if Subsequence(b, c[1..]) {
        SubsequenceTrans(a, b, c[1..]);
      } else if a[0] == b[0] && Subsequence(a[1..], b[1..]) {
        SubsequenceTrans(a[1..], b[1..], c[1..]);
      } else {
        SubsequenceTrans(a, b[1..], c[1..]);
      }
    }
  }

  /** `Iterator::filter` followed by `collect`: the words of `ws` that `keep`
      accepts, each as often as it occurs and in their original order. */
  function Filter(ws: seq<Word>, keep: Word -> bool): (r: seq<Word>)
    ensures |r| <= |ws|
    ensures forall w :: w in r <==> w in ws && keep(w)
    ensures forall w :: multiset(r)[w] == if keep(w) then multiset(ws)[w] else 0
    ensures Subsequence(r, ws)
  {
    if |ws| == 0 then []
    else
      var rest := Filter(ws[1..], keep);
      assert ws == [ws[0]] + ws[1..];
      assert multiset(ws) == multiset{ws[0]} + multiset(ws[1..]);
      assert forall w :: w in ws <==> w == ws[0] || w in ws[1..];
      if keep(ws[0]) then
        assert ([ws[0]] + rest)[1..] == rest;
        [ws[0]] + rest
      else rest
  }

  /** `choices` in `guess`: the target words that pass both filters, each
      as often as it occurs among the targets and in their order. */
  function Candidates(s: WordlSolver): (r: seq<Word>)
    ensures |r| <= |s.targets|
    ensures forall w :: w in r <==> w in s.targets && Admissible(s, w)
    ensures forall w :: multiset(r)[w] == if Admissible(s, w) then multiset(s.targets)[w] else 0
    ensures Subsequence(r, s.targets)
  {
    var fit := Filter(s.targets, w => FitsLetters(s.letters, w));
    var r := Filter(fit, w => HasKnownGood(s.knownGood, w));
    SubsequenceTrans(r, fit, s.targets);
    assert forall w :: multiset(r)[w] == if HasKnownGood(s.knownGood, w) then multiset(fit)[w] else 0;
    assert forall w :: multiset(fit)[w] == if FitsLetters(s.letters, w) then multiset(s.targets)[w] else 0;
    r
  }
}
