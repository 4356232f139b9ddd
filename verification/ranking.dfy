/** `guess` (src/main.rs:29-83): filter the target words, answer the only
    survivor, fail on none, and otherwise rank every target word by how
    evenly its letters split the survivors. */
module Ranking {
  import opened Results
  import opened Counting
  import opened SolverState

  /** Why `guess` can fail: no target word fits the feedback so far
      (the `unreachable!` of src/main.rs:49-51). */
  datatype GuessError = Impossible

  // ---------------------------------------------------------------------
  // Counts over the survivors

  /** The letter at position `i` of every survivor, in order
      (src/main.rs:55). */
  function Column(ws: seq<Word>, i: nat): (col: seq<char>)
    requires forall w :: w in ws ==> i < |w|
    ensures |col| == |ws|
  {
    seq(|ws|, j requires 0 <= j < |ws| => ws[j][i])
  }

  /** The letters of `w` not in `seen`, each once, in order of first
      occurrence: the loop that skips letters already in the set `h`
      (src/main.rs:73-78). */
  function DistinctFrom(w: Word, seen: set<char>): (d: seq<char>)
    ensures forall c :: multiset(d)[c] == if c in w && c !in seen then 1 else 0
  {
    if |w| == 0 then []
    else
      assert w == [w[0]] + w[1..];
      if w[0] in seen then DistinctFrom(w[1..], seen)
      else [w[0]] + DistinctFrom(w[1..], seen + {w[0]})
  }

  /** The distinct letters of a word, each exactly once. */
  function Distinct(w: Word): (d: seq<char>)
    ensures forall c :: multiset(d)[c] == if c in w then 1 else 0
  {
    DistinctFrom(w, {})
  }

  /** The distinct letters of every word, one word after another: the
      `flat_map` over each word's letter set (src/main.rs:62). The source
      walks a `HashSet`, whose order is unspecified; the counter built from
      it depends only on the multiset of letters, which is the same. */
  function DistinctLetters(ws: seq<Word>): seq<char>
  {
    if |ws| == 0 then [] else DistinctLetters(ws[..|ws| - 1]) + Distinct(ws[|ws| - 1])
  }

  /** How many words have `c` at position `i`. */
  function AtPosition(ws: seq<Word>, i: nat, c: char): (n: nat)
    requires forall w :: w in ws ==> i < |w|
    ensures n <= |ws|
  {
    if |ws| == 0 then 0
    else
      assert forall w :: w in ws[..|ws| - 1] ==> w in ws;
      AtPosition(ws[..|ws| - 1], i, c) + (if ws[|ws| - 1][i] == c then 1 else 0)
  }

  /** How many words contain `c` at least once. */
  function Containing(ws: seq<Word>, c: char): (n: nat)
    ensures n <= |ws|
  {
    if |ws| == 0 then 0
    else Containing(ws[..|ws| - 1], c) + (if c in ws[|ws| - 1] then 1 else 0)
  }

  lemma {:induction false} ColumnCounts(ws: seq<Word>, i: nat, c: char)
    requires forall w :: w in ws ==> i < |w|
    ensures multiset(Column(ws, i))[c] == AtPosition(ws, i, c)
  {
    if |ws| > 0 {
      var init := ws[..|ws| - 1];
      assert forall w :: w in init ==> w in ws;
      ColumnCounts(init, i, c);
      assert Column(ws, i) == Column(init, i) + [ws[|ws| - 1][i]];
    }
  }

  lemma {:induction false} DistinctLettersCounts(ws: seq<Word>)
    ensures forall c :: multiset(DistinctLetters(ws))[c] == Containing(ws, c)
  {
    if |ws| > 0 {
      DistinctLettersCounts(ws[..|ws| - 1]);
    }
  }

  // ---------------------------------------------------------------------
  // The tables of the source

  /** `letter_freqs[i]`: `inv_dist` of how many survivors have each letter at
      position `i` (src/main.rs:53-60). */
  function PositionTable(choices: seq<Word>, i: nat): (f: map<char, nat>)
    requires forall w :: w in choices ==> i < |w|
    ensures forall c :: Lookup(f, c) == PositionMerit(choices, i, c)
  {
    assert forall c :: multiset(Column(choices, i))[c] == AtPosition(choices, i, c) by {
      forall c ensures multiset(Column(choices, i))[c] == AtPosition(choices, i, c) {
        ColumnCounts(choices, i, c);
      }
    }
    InvDistAll(Counter(Column(choices, i)), |choices|)
  }

  /** `word_freq`: `inv_dist` of how many survivors contain each letter
      (src/main.rs:62-65). */
  function CoverageTable(choices: seq<Word>): (f: map<char, nat>)
    ensures forall c :: Lookup(f, c) == CoverageMerit(choices, c)
  {
    DistinctLettersCounts(choices);
    var h := Counter(DistinctLetters(choices));
    assert forall c :: c in h ==> h[c] == Lookup(h, c);
    InvDistAll(h, |choices|)
  }

  /** The table entries of the letters of `w`, position by position
      (src/main.rs:69-71). */
  function PositionSum(tables: seq<map<char, nat>>, w: Word): nat
    requires |w| <= |tables|
  {
    if |w| == 0 then 0
    else PositionSum(tables, w[..|w| - 1]) + Lookup(tables[|w| - 1], w[|w| - 1])
  }

  /** The table entries of the given letters (src/main.rs:74-80). */
  function LetterSum(table: map<char, nat>, cs: seq<char>): nat
  {
    if |cs| == 0 then 0 else LetterSum(table, cs[..|cs| - 1]) + Lookup(table, cs[|cs| - 1])
  }

  /** The key of `max_by_key` for one target word (src/main.rs:67-82). */
  function TableScore(tables: seq<map<char, nat>>, coverage: map<char, nat>, w: Word): nat
    requires |w| <= |tables|
  {
    PositionSum(tables, w) + LetterSum(coverage, Distinct(w))
  }

  // ---------------------------------------------------------------------
  // The heuristic in terms of the survivors

  /** What a letter at position `i` is worth: `inv_dist` of how many
      survivors share it there. */
  function PositionMerit(choices: seq<Word>, i: nat, c: char): nat
    requires forall w :: w in choices ==> i < |w|
  {
    InvDist(AtPosition(choices, i, c), |choices|)
  }

  /** What a letter anywhere in the word is worth: `inv_dist` of how many
      survivors contain it. */
  function CoverageMerit(choices: seq<Word>, c: char): nat
  {
    InvDist(Containing(choices, c), |choices|)
  }

  function PositionMerits(choices: seq<Word>, w: Word): nat
    requires forall v :: v in choices ==> |w| <= |v|
  {
    if |w| == 0 then 0
    else
      assert forall v :: v in choices ==> |w| - 1 < |v|;
      PositionMerits(choices, w[..|w| - 1]) + PositionMerit(choices, |w| - 1, w[|w| - 1])
  }

  function CoverageMerits(choices: seq<Word>, cs: seq<char>): nat
  {
    if |cs| == 0 then 0 else CoverageMerits(choices, cs[..|cs| - 1]) + CoverageMerit(choices, cs[|cs| - 1])
  }

  /** The score the heuristic gives `w` against the survivors: each
      position's letter is worth `inv_dist` of how many survivors share it
      there, and each distinct letter of `w`, counted once, is worth
      `inv_dist` of how many survivors contain it. */
  function Merit(choices: seq<Word>, w: Word): nat
    requires forall v :: v in choices ==> |w| <= |v|
  {
    PositionMerits(choices, w) + CoverageMerits(choices, Distinct(w))
  }

  lemma {:induction false} PositionSumIsMerit(choices: seq<Word>, tables: seq<map<char, nat>>, w: Word)
    requires forall v :: v in choices ==> |w| <= |v|
    requires |w| <= |tables|
    requires forall i :: 0 <= i < |w| ==> tables[i] == PositionTable(choices, i)
    ensures PositionSum(tables, w) == PositionMerits(choices, w)
  {
    if |w| > 0 {
      var i := |w| - 1;
      PositionSumIsMerit(choices, tables, w[..i]);
      ColumnCounts(choices, i, w[i]);
    }
  }

  lemma {:induction false} LetterSumIsMerit(choices: seq<Word>, cs: seq<char>)
    ensures LetterSum(CoverageTable(choices), cs) == CoverageMerits(choices, cs)
  {
    if |cs| > 0 {
      LetterSumIsMerit(choices, cs[..|cs| - 1]);
      DistinctLettersCounts(choices);
    }
  }

  /** The source's tables and lookups compute `Merit`. */
  lemma TableScoreIsMerit(choices: seq<Word>, tables: seq<map<char, nat>>, w: Word)
    requires forall v :: v in choices ==> |w| <= |v|
    requires |w| <= |tables|
    requires forall i :: 0 <= i < |w| ==> tables[i] == PositionTable(choices, i)
    ensures TableScore(tables, CoverageTable(choices), w) == Merit(choices, w)
  {
    PositionSumIsMerit(choices, tables, w);
    LetterSumIsMerit(choices, Distinct(w));
  }

  // ---------------------------------------------------------------------
  // Choosing the word

  /** `Iterator::max_by_key`: the position of a maximal element, the last
      one when several are maximal. */
  function LastArgMax(xs: seq<int>): (k: nat)
    requires |xs| > 0
    ensures k < |xs|
    ensures forall j :: 0 <= j < |xs| ==> xs[j] <= xs[k]
    ensures forall j :: k < j < |xs| ==> xs[j] < xs[k]
  {
    if |xs| == 1 then 0
    else
      var k := LastArgMax(xs[..|xs| - 1]);
      if xs[k] <= xs[|xs| - 1] then |xs| - 1 else k
  }

  /** Every word has length `n`. */
  predicate AllOfLength(ws: seq<Word>, n: nat) {
    forall w :: w in ws ==> |w| == n
  }

  /** `targets[k]` has the highest `Merit` among all target words, and no
      later target word reaches it. */
  ghost predicate LastBest(choices: seq<Word>, targets: seq<Word>, n: nat, k: nat)
    requires AllOfLength(choices, n) && AllOfLength(targets, n)
  {
    && k < |targets|
    && (forall j :: 0 <= j < |targets| ==> Merit(choices, targets[j]) <= Merit(choices, targets[k]))
    && (forall j :: k < j < |targets| ==> Merit(choices, targets[j]) < Merit(choices, targets[k]))
  }

  /** `letter_freqs`: one table per position (src/main.rs:53-60). */
  function PositionTables(choices: seq<Word>, n: nat): (tables: seq<map<char, nat>>)
    requires AllOfLength(choices, n)
    ensures |tables| == n
    ensures forall i :: 0 <= i < n ==> tables[i] == PositionTable(choices, i)
  {
    seq(n, i requires 0 <= i < n => PositionTable(choices, i))
  }

  /** The key `max_by_key` computes for every target word. Built from the
      source's tables and lookups, it is each word's `Merit`. */
  function Scores(choices: seq<Word>, targets: seq<Word>, n: nat): (scores: seq<int>)
    requires AllOfLength(choices, n) && AllOfLength(targets, n)
    ensures |scores| == |targets|
    ensures forall j :: 0 <= j < |targets| ==> scores[j] == Merit(choices, targets[j])
  {
    var tables := PositionTables(choices, n);
    var coverage := CoverageTable(choices);
    var scores := seq(|targets|, j requires 0 <= j < |targets| => TableScore(tables, coverage, targets[j]));
    forall j | 0 <= j < |targets|
      ensures scores[j] == Merit(choices, targets[j])
    {
      TableScoreIsMerit(choices, tables, targets[j]);
    }
    scores
  }

  /** The `max_by_key` over the target words (src/main.rs:67-82): the last
      target word of highest score. */
  function BestTarget(choices: seq<Word>, targets: seq<Word>, n: nat): (k: nat)
    requires AllOfLength(choices, n) && AllOfLength(targets, n)
    requires |targets| > 0
    ensures LastBest(choices, targets, n, k)
  {
    LastArgMax(Scores(choices, targets, n))
  }

  /** `guess`. It fails exactly when no target word survives the filter,
      answers the survivor when there is only one, and otherwise answers
      the last target word of highest `Merit`, computed over the survivors
      only. The guess vocabulary is never consulted. */
  function Guess(s: WordlSolver): (r: Result<Word, GuessError>)
    requires WellFormed(s)
    ensures r.Err? <==> |Candidates(s)| == 0
    ensures |Candidates(s)| == 1 ==> r == Ok(Candidates(s)[0])
    ensures r.Ok? ==> r.value in s.targets
    ensures |Candidates(s)| > 1 ==>
      exists k: nat :: LastBest(Candidates(s), s.targets, s.wordLen, k) && r == Ok(s.targets[k])
  {
    var choices := Candidates(s);
    if |choices| == 1 then Ok(choices[0])
    else if |choices| == 0 then Err(Impossible)
    else
      assert choices[0] in s.targets;
      var k := BestTarget(choices, s.targets, s.wordLen);
      Ok(s.targets[k])
  }
}
