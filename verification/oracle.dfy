/** The feedback oracle `score` (src/main.rs:125-130, 145-169): compares a
    guess with the secret and marks each position Green (same letter), Yellow
    (letter still owed by the secret) or Grey. */
module Oracle {
  import opened Results
  import opened Counting

  /** `CharResult` (src/main.rs:125-130). */
  datatype CharResult = Grey | Yellow | Green

  /** Positions `j < k` where the guess has `c` and the secret has a
      different letter: the copies of `c` the second pass has to judge. */
  function Misses(guess: seq<char>, secret: seq<char>, c: char, k: nat): nat
    requires k <= |secret| <= |guess|
  {
    if k == 0 then 0
    else Misses(guess, secret, c, k - 1)
         + (if guess[k - 1] == c && guess[k - 1] != secret[k - 1] then 1 else 0)
  }

  /** Positions `j < k` where the secret has `c` and the guess has a
      different letter: the copies of `c` an exact match did not consume. */
  function Unclaimed(guess: seq<char>, secret: seq<char>, c: char, k: nat): nat
    requires k <= |secret| <= |guess|
  {
    if k == 0 then 0
    else Unclaimed(guess, secret, c, k - 1)
         + (if secret[k - 1] == c && guess[k - 1] != secret[k - 1] then 1 else 0)
  }

  /** Positions `j < k` where both words have `c`. */
  function Exact(guess: seq<char>, secret: seq<char>, c: char, k: nat): nat
    requires k <= |secret| <= |guess|
  {
    if k == 0 then 0
    else Exact(guess, secret, c, k - 1)
         + (if guess[k - 1] == c && secret[k - 1] == c then 1 else 0)
  }

  /** The duplicate-letter rule for position `i`, stated without passes: a
      position is Green when the letters agree; otherwise it is Yellow
      exactly when fewer earlier mismatched copies of the guessed letter
      exist than unclaimed copies of it in the secret, and Grey otherwise. */
  function Mark(guess: seq<char>, secret: seq<char>, i: nat): CharResult
    requires i < |secret| <= |guess|
  {
    if guess[i] == secret[i] then Green
    else if Misses(guess, secret, guess[i], i) < Unclaimed(guess, secret, guess[i], |secret|) then Yellow
    else Grey
  }

  /** The feedback for a whole guess. Positions of the guess beyond the
      secret's length are ignored, as `zip` ignores them. */
  function Feedback(guess: seq<char>, secret: seq<char>): (r: seq<CharResult>)
    requires |guess| >= |secret|
    ensures |r| == |secret|
    ensures forall i :: 0 <= i < |secret| ==> r[i] == Mark(guess, secret, i)
  {
    seq(|secret|, i requires 0 <= i < |secret| => Mark(guess, secret, i))
  }

  /** The first-pass invariant: the counter holds, for each letter, its
      copies in the unscanned suffix of the secret plus the copies already
      passed over without an exact match. */
  ghost predicate Unscanned(guess: seq<char>, secret: seq<char>, count: map<char, nat>, i: nat)
    requires i <= |secret| <= |guess|
  {
    forall c :: Lookup(count, c) == multiset(secret[i..])[c] + Unclaimed(guess, secret, c, i)
  }

  /** A secret letter matched exactly at `i` still has a copy in the
      counter, and taking it away keeps the first-pass invariant. */
  lemma ExactConsumes(guess: seq<char>, secret: seq<char>, i: nat, count: map<char, nat>)
    requires i < |secret| <= |guess| && guess[i] == secret[i]
    requires Unscanned(guess, secret, count, i)
    ensures secret[i] in count && count[secret[i]] > 0
    ensures Unscanned(guess, secret, count[secret[i] := count[secret[i]] - 1], i + 1)
  {
    var l := secret[i];
    assert secret[i..] == [l] + secret[i + 1..];
    assert Lookup(count, l) == multiset(secret[i..])[l] + Unclaimed(guess, secret, l, i);
    var count' := count[l := count[l] - 1];
    forall c ensures Lookup(count', c) == multiset(secret[i + 1..])[c] + Unclaimed(guess, secret, c, i + 1) {
      assert Lookup(count, c) == multiset(secret[i..])[c] + Unclaimed(guess, secret, c, i);
      assert Unclaimed(guess, secret, c, i + 1) == Unclaimed(guess, secret, c, i);
    }
  }

  /** A mismatched position moves its secret letter from the unscanned
      suffix to the unclaimed copies, leaving the counter as it is. */
  lemma ExactSkips(guess: seq<char>, secret: seq<char>, i: nat, count: map<char, nat>)
    requires i < |secret| <= |guess| && guess[i] != secret[i]
    requires Unscanned(guess, secret, count, i)
    ensures Unscanned(guess, secret, count, i + 1)
  {
    assert secret[i..] == [secret[i]] + secret[i + 1..];
  }

  /** First pass of `score` (src/main.rs:149-154): every position whose
      letters agree becomes Green and consumes one copy of that letter from
      the counter of the secret. What is left in the counter is, letter by
      letter, the number of unclaimed copies in the secret. */
  method ExactPass(guess: seq<char>, secret: seq<char>)
    returns (count: map<char, nat>, result: seq<Option<CharResult>>)
    requires |guess| >= |secret|
    ensures |result| == |secret|
    ensures forall j :: 0 <= j < |secret| ==>
      result[j] == (if guess[j] == secret[j] then Some(Green) else None)
    ensures forall c :: Lookup(count, c) == Unclaimed(guess, secret, c, |secret|)
  {
    count := Counter(secret);
    result := seq(|secret|, _ => None);
    var n := |secret|;
    var i := 0;
    while i < n
      invariant 0 <= i <= n
      invariant |result| == n
      invariant forall j {:trigger result[j]} :: 0 <= j < n ==>
        result[j] == (if j < i && guess[j] == secret[j] then Some(Green) else None)
      invariant Unscanned(guess, secret, count, i)
    {
      var wl := secret[i];
      if guess[i] == wl {
        ExactConsumes(guess, secret, i, count);
        result := result[i := Some(Green)];
        count := count[wl := count[wl] - 1];
      } else {
        ExactSkips(guess, secret, i, count);
      }
      i := i + 1;
    }
    assert secret[n..] == [];
    forall c ensures Lookup(count, c) == Unclaimed(guess, secret, c, n) {
      assert Lookup(count, c) == multiset(secret[n..])[c] + Unclaimed(guess, secret, c, n);
    }
  }

  /** The second-pass invariant: what the counter still holds of `c` after
      the first `i` positions. */
  ghost predicate Remaining(guess: seq<char>, secret: seq<char>, count: map<char, nat>, i: nat)
    requires i <= |secret| <= |guess|
  {
    forall c :: Lookup(count, c) + Min(Misses(guess, secret, c, i), Unclaimed(guess, secret, c, |secret|))
                == Unclaimed(guess, secret, c, |secret|)
  }

  /** An exact match is passed over by the second pass. */
  lemma PresenceSkips(guess: seq<char>, secret: seq<char>, i: nat, count: map<char, nat>)
    requires i < |secret| <= |guess| && guess[i] == secret[i]
    requires Remaining(guess, secret, count, i)
    ensures Remaining(guess, secret, count, i + 1)
  {
  }

  /** A mismatched letter with a copy left in the counter is Yellow, and
      consuming the copy keeps the invariant. */
  lemma PresenceConsumes(guess: seq<char>, secret: seq<char>, i: nat, count: map<char, nat>)
    requires i < |secret| <= |guess| && guess[i] != secret[i]
    requires Remaining(guess, secret, count, i)
    requires Lookup(count, guess[i]) > 0
    ensures guess[i] in count
    ensures Mark(guess, secret, i) == Yellow
    ensures Remaining(guess, secret, count[guess[i] := count[guess[i]] - 1], i + 1)
  {
  }

  /** A mismatched letter with no copy left is Grey; the counter stays. */
  lemma PresenceRejects(guess: seq<char>, secret: seq<char>, i: nat, count: map<char, nat>)
    requires i < |secret| <= |guess| && guess[i] != secret[i]
    requires Remaining(guess, secret, count, i)
    requires Lookup(count, guess[i]) == 0
    ensures Mark(guess, secret, i) == Grey
    ensures Remaining(guess, secret, count, i + 1)
  {
  }

  /** Second pass of `score` (src/main.rs:156-166): each position not yet
      marked becomes Yellow while the counter still holds a copy of the
      guessed letter, consuming it, and Grey otherwise. */
  method PresencePass(guess: seq<char>, secret: seq<char>, count0: map<char, nat>, result0: seq<Option<CharResult>>)
    returns (result: seq<Option<CharResult>>)
    requires |guess| >= |secret|
    requires |result0| == |secret|
    requires forall j :: 0 <= j < |secret| ==>
      result0[j] == (if guess[j] == secret[j] then Some(Green) else None)
    requires forall c :: Lookup(count0, c) == Unclaimed(guess, secret, c, |secret|)
    ensures |result| == |secret|
    ensures forall j :: 0 <= j < |secret| ==> result[j] == Some(Mark(guess, secret, j))
  {
    var n := |secret|;
    var count := count0;
    result := result0;
    var i := 0;
    while i < n
      invariant 0 <= i <= n
      invariant |result| == n
      invariant forall j {:trigger result[j]} :: 0 <= j < i ==> result[j] == Some(Mark(guess, secret, j))
      invariant forall j {:trigger result[j]} :: i <= j < n ==>
        result[j] == (if guess[j] == secret[j] then Some(Green) else None)
      invariant Remaining(guess, secret, count, i)
    {
      var gl := guess[i];
      if result[i].Some? {
        PresenceSkips(guess, secret, i, count);
      } else if Lookup(count, gl) > 0 {
        PresenceConsumes(guess, secret, i, count);
        result := result[i := Some(Yellow)];
        count := count[gl := count[gl] - 1];
      } else {
        PresenceRejects(guess, secret, i, count);
        result := result[i := Some(Grey)];
      }
      i := i + 1;
    }
  }

  /** `score`: the two passes of the source over a letter counter. The
      counter's entries are `nat`, and every decrement is proved to act on a
      positive entry, so the remaining count never goes below zero. The
      result is the pass-free rule `Feedback`. */
  method Score(guess: seq<char>, secret: seq<char>) returns (r: seq<CharResult>)
    requires |guess| >= |secret|
    ensures r == Feedback(guess, secret)
  {
    var count, marks := ExactPass(guess, secret);
    marks := PresencePass(guess, secret, count, marks);
    r := seq(|secret|, j requires 0 <= j < |secret| => marks[j].value);
  }

  // ---------------------------------------------------------------------
  // Properties of the feedback

  /** Positions `j < k` whose guessed letter is `c` and whose mark is not
      Grey. */
  function Hits(guess: seq<char>, marks: seq<CharResult>, c: char, k: nat): nat
    requires k <= |marks| && k <= |guess|
  {
    if k == 0 then 0
    else Hits(guess, marks, c, k - 1) + (if guess[k - 1] == c && marks[k - 1] != Grey then 1 else 0)
  }

  /** The copies of `c` in the first `k` letters of the secret are the
      exact matches plus the unclaimed ones. */
  lemma {:induction false} SecretSplit(guess: seq<char>, secret: seq<char>, c: char, k: nat)
    requires k <= |secret| <= |guess|
    ensures multiset(secret[..k])[c] == Exact(guess, secret, c, k) + Unclaimed(guess, secret, c, k)
  {
    if k > 0 {
      SecretSplit(guess, secret, c, k - 1);
      assert secret[..k] == secret[..k - 1] + [secret[k - 1]];
    }
  }

  /** The copies of `c` in the first `k` letters of the guess are the exact
      matches plus the misses. */
  lemma {:induction false} GuessSplit(guess: seq<char>, secret: seq<char>, c: char, k: nat)
    requires k <= |secret| <= |guess|
    ensures multiset(guess[..k])[c] == Exact(guess, secret, c, k) + Misses(guess, secret, c, k)
  {
    if k > 0 {
      GuessSplit(guess, secret, c, k - 1);
      assert guess[..k] == guess[..k - 1] + [guess[k - 1]];
    }
  }

  /** Among the first `k` positions, the non-Grey copies of `c` are the
      exact matches plus as many misses as the unclaimed copies allow. */
  lemma {:induction false} HitsSplit(guess: seq<char>, secret: seq<char>, marks: seq<CharResult>, c: char, k: nat)
    requires k <= |secret| <= |guess| && |marks| == |secret|
    requires forall j :: 0 <= j < |secret| ==> marks[j] == Mark(guess, secret, j)
    ensures Hits(guess, marks, c, k)
            == Exact(guess, secret, c, k) + Min(Misses(guess, secret, c, k), Unclaimed(guess, secret, c, |secret|))
  {
    if k > 0 {
      var j := k - 1;
      HitsSplit(guess, secret, marks, c, j);
      var u := Unclaimed(guess, secret, c, |secret|);
      assert Hits(guess, marks, c, k) == Hits(guess, marks, c, j) + (if guess[j] == c && marks[j] != Grey then 1 else 0);
      assert Exact(guess, secret, c, k) == Exact(guess, secret, c, j) + (if guess[j] == c && secret[j] == c then 1 else 0);
      assert Misses(guess, secret, c, k) == Misses(guess, secret, c, j) + (if guess[j] == c && guess[j] != secret[j] then 1 else 0);
      if guess[j] == c && guess[j] != secret[j] {
        assert marks[j] == Mark(guess, secret, j);
        assert marks[j] != Grey <==> Misses(guess, secret, c, j) < u;
      }
    }
  }

  /** The duplicate-letter rule's promise: for every letter, the guess gets
      exactly as many non-Grey marks as the smaller of its copies in the
      guess and its copies in the secret. In particular the non-Grey marks
      of a letter never outnumber its copies in the secret. */
  lemma NonGreyCount(guess: seq<char>, secret: seq<char>, c: char)
    requires |guess| >= |secret|
    ensures Hits(guess, Feedback(guess, secret), c, |secret|)
            == Min(multiset(guess[..|secret|])[c], multiset(secret)[c])
    ensures Hits(guess, Feedback(guess, secret), c, |secret|) <= multiset(secret)[c]
  {
    HitsSplit(guess, secret, Feedback(guess, secret), c, |secret|);
    SecretSplit(guess, secret, c, |secret|);
    GuessSplit(guess, secret, c, |secret|);
    assert secret[..|secret|] == secret;
  }

  /** A guessed letter the secret does not contain is always Grey. */
  lemma AbsentLetterGrey(guess: seq<char>, secret: seq<char>, i: nat)
    requires i < |secret| <= |guess|
    requires guess[i] !in secret
    ensures Feedback(guess, secret)[i] == Grey
  {
    SecretSplit(guess, secret, guess[i], |secret|);
    assert secret[..|secret|] == secret;
  }

  /** Some position `j < k` carries `c` and a non-Grey mark. */
  lemma {:induction false} HitWitness(guess: seq<char>, marks: seq<CharResult>, c: char, k: nat)
    requires k <= |marks| && k <= |guess|
    requires Hits(guess, marks, c, k) > 0
    ensures exists j :: 0 <= j < k && guess[j] == c && marks[j] != Grey
  {
    if guess[k - 1] == c && marks[k - 1] != Grey {
    } else {
      HitWitness(guess, marks, c, k - 1);
    }
  }

  /** A letter marked Grey although the secret contains it is marked Yellow
      or Green at some other position of the same guess. */
  lemma GreyButPresent(guess: seq<char>, secret: seq<char>, i: nat)
    requires i < |secret| <= |guess|
    requires Feedback(guess, secret)[i] == Grey
    requires guess[i] in secret
    ensures exists j :: 0 <= j < |secret| && j != i && guess[j] == guess[i] && Feedback(guess, secret)[j] != Grey
  {
    var c := guess[i];
    NonGreyCount(guess, secret, c);
    assert guess[..|secret|][i] == c;
    HitWitness(guess, Feedback(guess, secret), c, |secret|);
  }

  /** Guessing the secret itself is answered with Green everywhere. */
  lemma SelfFeedbackAllGreen(w: seq<char>)
    ensures Feedback(w, w) == seq(|w|, _ => Green)
  {
  }

  /** Worked example: "speed" against the secret "erase" (two copies of `e` guessed, two in the secret, none in place). */
  lemma SpeedAgainstErase()
    ensures Feedback("speed", "erase") == [Yellow, Grey, Yellow, Yellow, Grey]
  {
    assert Mark("speed", "erase", 0) == Yellow by {
      assert Misses("speed", "erase", 's', 0) == 0;
      assert Unclaimed("speed", "erase", 's', 5) == 1;
    }
    AbsentLetterGrey("speed", "erase", 1);
    assert Mark("speed", "erase", 2) == Yellow by {
      assert Misses("speed", "erase", 'e', 2) == 0;
      assert Unclaimed("speed", "erase", 'e', 5) == 2;
    }
    assert Mark("speed", "erase", 3) == Yellow by {
      assert Misses("speed", "erase", 'e', 3) == 1;
      assert Unclaimed("speed", "erase", 'e', 5) == 2;
    }
    AbsentLetterGrey("speed", "erase", 4);
  }

  /** Worked example: "abca" against the secret "aabb" (the exact match on `a` uses up one of the two `a`s first). */
  lemma AbcaAgainstAabb()
    ensures Feedback("abca", "aabb") == [Green, Yellow, Grey, Yellow]
  {
    assert Mark("abca", "aabb", 1) == Yellow by {
      assert Misses("abca", "aabb", 'b', 1) == 0;
      assert Unclaimed("abca", "aabb", 'b', 4) == 2;
    }
    AbsentLetterGrey("abca", "aabb", 2);
    assert Mark("abca", "aabb", 3) == Yellow by {
      assert Misses("abca", "aabb", 'a', 3) == 0;
      assert Unclaimed("abca", "aabb", 'a', 4) == 1;
    }
  }

  /** Worked example: "slate" against the secret "crane" (two exact
      matches; `s`, `l` and `t` are not in the secret). */
  lemma SlateAgainstCrane()
    ensures Feedback("slate", "crane") == [Grey, Grey, Green, Grey, Green]
  {
    AbsentLetterGrey("slate", "crane", 0);
    AbsentLetterGrey("slate", "crane", 1);
    AbsentLetterGrey("slate", "crane", 3);
  }
}
