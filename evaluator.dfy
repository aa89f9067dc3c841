/** The evaluator: the two-pass comparison of one guess against the secret,
    as `Game.submit_guess` performs it, together with a closed-form reference
    definition of the feedback it produces and the properties of that
    feedback (exact matches, the per-digit supply bound, and when a digit is
    reported as misplaced or wrong). */
module Evaluator {
  import opened Enums

  datatype Option<T> = None | Some(value: T)

  /** One feedback slot: the guessed digit and its verdict. */
  datatype Slot = Slot(value: char, status: DigitStatus)

  function Min(a: nat, b: nat): nat { if a <= b then a else b }

  /** Number of positions k < i at which x holds d while x and y differ at k.
      With x the secret it is the supply of unclaimed copies of d left after
      the exact matches; with x the guess it is the demand for d made by
      the guess positions that are not exact matches. */
  function Unmatched(x: seq<char>, y: seq<char>, d: char, i: nat): nat
    requires i <= |x| == |y|
  {
    if i == 0 then 0
    else Unmatched(x, y, d, i - 1) + (if x[i - 1] == d && x[i - 1] != y[i - 1] then 1 else 0)
  }

  /** Number of positions k < i at which both x and y hold d. */
  function Both(x: seq<char>, y: seq<char>, d: char, i: nat): nat
    requires i <= |x| == |y|
  {
    if i == 0 then 0
    else Both(x, y, d, i - 1) + (if x[i - 1] == d && y[i - 1] == d then 1 else 0)
  }

  /** Reference verdict for position i. An exact match is Correct. Otherwise
      the digit is Misplaced when fewer earlier non-exact guess positions ask
      for the same digit than there are non-exact secret positions holding
      it, and Wrong when every such copy has already been claimed. */
  function Status(secret: seq<char>, guess: seq<char>, i: nat): DigitStatus
    requires |secret| == |guess| && i < |guess|
  {
    if guess[i] == secret[i] then Correct
    else if Unmatched(guess, secret, guess[i], i) < Unmatched(secret, guess, guess[i], |secret|) then Misplaced
    else Wrong
  }

  /** Reference feedback row: one slot per guessed digit. */
  function Evaluate(secret: seq<char>, guess: seq<char>): seq<Slot>
    requires |secret| == |guess|
  {
    seq(|guess|, i requires 0 <= i < |guess| => Slot(guess[i], Status(secret, guess, i)))
  }

  /** Number of slots k < i that report digit d with verdict s. */
  function CountSlots(row: seq<Slot>, d: char, s: DigitStatus, i: nat): nat
    requires i <= |row|
  {
    if i == 0 then 0
    else CountSlots(row, d, s, i - 1) + (if row[i - 1] == Slot(d, s) then 1 else 0)
  }

  /** Python's `list.index`: the leftmost position holding x. */
  function FirstIndex(pool: seq<Option<char>>, x: Option<char>): (j: nat)
    requires x in pool
    ensures j < |pool| && pool[j] == x
    ensures forall k :: 0 <= k < j ==> pool[k] != x
  {
    if pool[0] == x then 0 else 1 + FirstIndex(pool[1..], x)
  }

  /** Copies of digit d still unclaimed in the pool (blanks are None). */
  ghost function Unclaimed(pool: seq<Option<char>>, d: char): nat
  {
    multiset(pool)[Some(d)]
  }

  /** Copies of d that pass 2 still has to hand out when it reaches position i. */
  ghost function Remaining(secret: seq<char>, guess: seq<char>, i: nat, d: char): nat
    requires i <= |guess| == |secret|
  {
    var supply := Unmatched(secret, guess, d, |secret|);
    var demand := Unmatched(guess, secret, d, i);
    if demand < supply then supply - demand else 0
  }

  /** The pool as pass 1 leaves it: exact matches blanked out. */
  ghost function ExactPool(secret: seq<char>, guess: seq<char>): seq<Option<char>>
    requires |secret| == |guess|
  {
    seq(|secret|, k requires 0 <= k < |secret| => if guess[k] == secret[k] then None else Some(secret[k]))
  }

  lemma {:induction false} ExactPoolUnclaimed(secret: seq<char>, guess: seq<char>, i: nat, d: char)
    requires i <= |secret| == |guess|
    ensures Unclaimed(ExactPool(secret, guess)[..i], d) == Unmatched(secret, guess, d, i)
  {
    if i > 0 {
      ExactPoolUnclaimed(secret, guess, i - 1, d);
      var p := ExactPool(secret, guess);
      assert p[..i] == p[..i - 1] + [p[i - 1]];
    }
  }

  /** Removing one copy of d from the pool: the count of d drops by one,
      every other digit keeps its count. */
  lemma BlankOut(pool: seq<Option<char>>, j: nat, d: char)
    requires j < |pool| && pool[j] == Some(d)
    ensures Unclaimed(pool[j := None], d) == Unclaimed(pool, d) - 1
    ensures forall e: char :: e != d ==> Unclaimed(pool[j := None], e) == Unclaimed(pool, e)
  {
    assert pool == pool[..j] + [pool[j]] + pool[j + 1..];
    assert pool[j := None] == pool[..j] + [None] + pool[j + 1..];
  }

  /** Pass 2 at a position that pass 1 already marked Correct. */
  lemma CorrectStep(secret: seq<char>, guess: seq<char>, i: nat)
    requires i < |guess| == |secret| && guess[i] == secret[i]
    ensures forall d: char :: Remaining(secret, guess, i + 1, d) == Remaining(secret, guess, i, d)
  {
  }

  /** Pass 2 finds a copy of the digit in the pool at j. */
  lemma MisplacedStep(secret: seq<char>, guess: seq<char>, i: nat, pool: seq<Option<char>>, j: nat,
                      after: seq<Option<char>>)
    requires i < |guess| == |secret| && guess[i] != secret[i]
    requires forall d: char :: Unclaimed(pool, d) == Remaining(secret, guess, i, d)
    requires j < |pool| && pool[j] == Some(guess[i]) && after == pool[j := None]
    ensures Status(secret, guess, i) == Misplaced
    ensures forall d: char :: Unclaimed(after, d) == Remaining(secret, guess, i + 1, d)
  {
    assert Some(guess[i]) in multiset(pool);
    assert Unclaimed(pool, guess[i]) > 0;
    BlankOut(pool, j, guess[i]);
    forall d: char ensures Unclaimed(after, d) == Remaining(secret, guess, i + 1, d) {
      assert Unclaimed(pool, d) == Remaining(secret, guess, i, d);
      if d == guess[i] {
        assert Unmatched(guess, secret, d, i + 1) == Unmatched(guess, secret, d, i) + 1;
      } else {
        assert Unmatched(guess, secret, d, i + 1) == Unmatched(guess, secret, d, i);
      }
    }
  }

  /** Pass 2 finds no copy of the digit in the pool. */
  lemma WrongStep(secret: seq<char>, guess: seq<char>, i: nat, pool: seq<Option<char>>)
    requires i < |guess| == |secret| && guess[i] != secret[i]
    requires forall d: char :: Unclaimed(pool, d) == Remaining(secret, guess, i, d)
    requires Some(guess[i]) !in pool
    ensures Status(secret, guess, i) == Wrong
    ensures forall d: char :: Unclaimed(pool, d) == Remaining(secret, guess, i + 1, d)
  {
    assert Unclaimed(pool, guess[i]) == 0;
  }

  /** The marks as pass 1 leaves them: exact matches Correct, the rest unassigned. */
  ghost function ExactMarks(secret: seq<char>, guess: seq<char>): seq<Option<Slot>>
    requires |secret| == |guess|
  {
    seq(|guess|, k requires 0 <= k < |guess| => if guess[k] == secret[k] then Some(Slot(guess[k], Correct)) else None)
  }

  /** Pass 1 of `submit_guess`: every exact match is marked Correct and its
      digit is blanked out of the pool. */
  method MarkExact(secret: seq<char>, guess: seq<char>, newGuess: array<Option<Slot>>, pool: array<Option<char>>)
    requires |secret| == |guess| == newGuess.Length == pool.Length
    requires forall k :: 0 <= k < newGuess.Length ==> newGuess[k] == None
    requires forall k :: 0 <= k < pool.Length ==> pool[k] == Some(secret[k])
    modifies newGuess, pool
    ensures newGuess[..] == ExactMarks(secret, guess)
    ensures pool[..] == ExactPool(secret, guess)
  {
    for i := 0 to |guess|
      invariant forall k :: 0 <= k < i ==> newGuess[k] == ExactMarks(secret, guess)[k]
      invariant forall k :: i <= k < newGuess.Length ==> newGuess[k] == None
      invariant forall k :: 0 <= k < i ==> pool[k] == ExactPool(secret, guess)[k]
      invariant forall k :: i <= k < pool.Length ==> pool[k] == Some(secret[k])
    {
      if pool[i] == Some(guess[i]) {
        newGuess[i] := Some(Slot(guess[i], Correct));
        pool[i] := None;
      }
    }
  }

  /** Pass 2 of `submit_guess`: each position left unassigned by pass 1 is
      marked Misplaced when its digit is still in the pool, and the leftmost
      copy is blanked out; otherwise it is marked Wrong. */
  method MarkRest(secret: seq<char>, guess: seq<char>, newGuess: array<Option<Slot>>, pool: array<Option<char>>)
    requires |secret| == |guess| == newGuess.Length == pool.Length
    requires newGuess[..] == ExactMarks(secret, guess)
    requires pool[..] == ExactPool(secret, guess)
    modifies newGuess, pool
    ensures forall k :: 0 <= k < newGuess.Length ==> newGuess[k] == Some(Evaluate(secret, guess)[k])
    ensures forall d: char :: Unclaimed(pool[..], d) == Remaining(secret, guess, |guess|, d)
  {
    var n := |guess|;
    forall d: char ensures Unclaimed(pool[..], d) == Remaining(secret, guess, 0, d) {
      assert pool[..] == ExactPool(secret, guess)[..n];
      ExactPoolUnclaimed(secret, guess, n, d);
    }
    ghost var reference := Evaluate(secret, guess);
    ghost var marks := ExactMarks(secret, guess);
    for i := 0 to n
      invariant forall k :: 0 <= k < i ==> newGuess[k] == Some(reference[k])
      invariant forall k :: i <= k < n ==> newGuess[k] == marks[k]
      invariant forall d: char :: Unclaimed(pool[..], d) == Remaining(secret, guess, i, d)
    {
      ghost var before := pool[..];
      if newGuess[i] == None {
        if Some(guess[i]) in pool[..] {
          newGuess[i] := Some(Slot(guess[i], Misplaced));
          var j := FirstIndex(pool[..], Some(guess[i]));
          pool[j] := None;
          MisplacedStep(secret, guess, i, before, j, pool[..]);
          assert reference[i] == Slot(guess[i], Misplaced);
        } else {
          newGuess[i] := Some(Slot(guess[i], Wrong));
          WrongStep(secret, guess, i, before);
          assert reference[i] == Slot(guess[i], Wrong);
        }
      } else {
        CorrectStep(secret, guess, i);
        assert reference[i] == Slot(guess[i], Correct);
      }
    }
  }

  /** The part of `submit_guess` that builds the feedback row: a fresh row
      of unassigned slots and a copy of the secret as the pool, then the two
      passes. */
  method Grade(secret: seq<char>, guess: seq<char>) returns (row: seq<Slot>)
    requires |secret| == |guess|
    ensures row == Evaluate(secret, guess)
  {
    var newGuess := new Option<Slot>[|guess|](_ => None);
    var pool := new Option<char>[|secret|](k requires 0 <= k < |secret| => Some(secret[k]));
    MarkExact(secret, guess, newGuess, pool);
    MarkRest(secret, guess, newGuess, pool);
    row := seq(|guess|, k requires 0 <= k < |guess| && newGuess[k].Some? reads newGuess => newGuess[k].value);
  }

  // Properties of the feedback row.

  /** Every slot reports the guessed digit, and it is Correct exactly when
      the guess and the secret agree at that position. */
  lemma CorrectIffExact(secret: seq<char>, guess: seq<char>, i: nat)
    requires |secret| == |guess| && i < |guess|
    ensures |Evaluate(secret, guess)| == |guess|
    ensures Evaluate(secret, guess)[i].value == guess[i]
    ensures Evaluate(secret, guess)[i].status == Correct <==> guess[i] == secret[i]
  {
  }

  /** Occurrences of d in a prefix of x split into those where y agrees and
      those where it does not. */
  lemma {:induction false} OccurrencesSplit(x: seq<char>, y: seq<char>, d: char, i: nat)
    requires i <= |x| == |y|
    ensures multiset(x[..i])[d] == Both(x, y, d, i) + Unmatched(x, y, d, i)
  {
    if i > 0 {
      OccurrencesSplit(x, y, d, i - 1);
      assert x[..i] == x[..i - 1] + [x[i - 1]];
    }
  }

  lemma {:induction false} BothSymmetric(x: seq<char>, y: seq<char>, d: char, i: nat)
    requires i <= |x| == |y|
    ensures Both(x, y, d, i) == Both(y, x, d, i)
  {
    if i > 0 {
      BothSymmetric(x, y, d, i - 1);
    }
  }

  /** Some position below i holds d in x while y differs there exactly when
      the count is positive. */
  lemma {:induction false} UnmatchedPositive(x: seq<char>, y: seq<char>, d: char, i: nat)
    requires i <= |x| == |y|
    ensures Unmatched(x, y, d, i) > 0 <==> exists k :: 0 <= k < i && x[k] == d && x[k] != y[k]
  {
    if i > 0 {
      UnmatchedPositive(x, y, d, i - 1);
    }
  }

  /** Correct slots for d among the first i are the positions where both
      the guess and the secret hold d. */
  lemma {:induction false} CorrectPrefix(secret: seq<char>, guess: seq<char>, d: char, i: nat)
    requires i <= |secret| == |guess|
    ensures CountSlots(Evaluate(secret, guess), d, Correct, i) == Both(guess, secret, d, i)
  {
    if i > 0 {
      CorrectPrefix(secret, guess, d, i - 1);
    }
  }

  /** Misplaced slots for d among the first i: as many as the non-exact
      demand for d so far, capped by the supply of unmatched copies of d in
      the secret. */
  lemma {:induction false} MisplacedPrefix(secret: seq<char>, guess: seq<char>, d: char, i: nat)
    requires i <= |secret| == |guess|
    ensures CountSlots(Evaluate(secret, guess), d, Misplaced, i)
         == Min(Unmatched(secret, guess, d, |secret|), Unmatched(guess, secret, d, i))
  {
    if i > 0 {
      MisplacedPrefix(secret, guess, d, i - 1);
    }
  }

  /** The per-digit supply bound, in its exact form: the slots that claim
      digit d (Correct or Misplaced) number the smaller of the copies of d in
      the secret and in the guess, hence never more than the secret holds. */
  lemma ClaimedIsMin(secret: seq<char>, guess: seq<char>, d: char)
    requires |secret| == |guess|
    ensures CountSlots(Evaluate(secret, guess), d, Correct, |guess|)
          + CountSlots(Evaluate(secret, guess), d, Misplaced, |guess|)
         == Min(multiset(secret)[d], multiset(guess)[d])
    ensures CountSlots(Evaluate(secret, guess), d, Correct, |guess|)
          + CountSlots(Evaluate(secret, guess), d, Misplaced, |guess|)
         <= multiset(secret)[d]
  {
    var n := |guess|;
    CorrectPrefix(secret, guess, d, n);
    MisplacedPrefix(secret, guess, d, n);
    OccurrencesSplit(secret, guess, d, n);
    OccurrencesSplit(guess, secret, d, n);
    BothSymmetric(secret, guess, d, n);
    assert secret[..n] == secret && guess[..n] == guess;
  }

  /** A Wrong slot is a non-exact position reached by pass 2 after every
      unmatched copy of its digit in the secret had been claimed by an
      earlier Misplaced slot. */
  lemma WrongMeansExhausted(secret: seq<char>, guess: seq<char>, i: nat)
    requires |secret| == |guess| && i < |guess|
    requires Evaluate(secret, guess)[i].status == Wrong
    ensures guess[i] != secret[i]
    ensures CountSlots(Evaluate(secret, guess), guess[i], Misplaced, i)
         == Unmatched(secret, guess, guess[i], |secret|)
  {
    MisplacedPrefix(secret, guess, guess[i], i);
  }

  /** A Misplaced slot is a non-exact position whose digit stands, unmatched,
      at some other position of the secret, and of which an unclaimed copy was
      left when pass 2 reached it. */
  lemma MisplacedMeansCopy(secret: seq<char>, guess: seq<char>, i: nat)
    requires |secret| == |guess| && i < |guess|
    requires Evaluate(secret, guess)[i].status == Misplaced
    ensures guess[i] != secret[i]
    ensures CountSlots(Evaluate(secret, guess), guess[i], Misplaced, i)
          < Unmatched(secret, guess, guess[i], |secret|)
    ensures exists k :: 0 <= k < |secret| && k != i && secret[k] == guess[i] && guess[k] != secret[k]
  {
    MisplacedPrefix(secret, guess, guess[i], i);
    UnmatchedPositive(secret, guess, guess[i], |secret|);
  }

  /** For a guess without repeated digits the verdicts are the plain ones:
      Misplaced when the digit occurs in the secret but not at this
      position, Wrong when it does not occur in the secret at all. */
  lemma DistinctGuessVerdicts(secret: seq<char>, guess: seq<char>, i: nat)
    requires |secret| == |guess| && i < |guess|
    requires forall j, k :: 0 <= j < k < |guess| ==> guess[j] != guess[k]
    ensures Evaluate(secret, guess)[i].status == Misplaced <==> guess[i] != secret[i] && guess[i] in secret
    ensures Evaluate(secret, guess)[i].status == Wrong <==> guess[i] !in secret
  {
    var d := guess[i];
    UnmatchedPositive(guess, secret, d, i);
    assert Unmatched(guess, secret, d, i) == 0;
    UnmatchedPositive(secret, guess, d, |secret|);
    if d != secret[i] && d in secret {
      var k :| 0 <= k < |secret| && secret[k] == d;
      assert guess[k] != secret[k];
    }
  }

  /** Every slot is Correct exactly when the guess equals the secret. */
  lemma AllCorrectIffEqual(secret: seq<char>, guess: seq<char>)
    requires |secret| == |guess|
    ensures (forall i :: 0 <= i < |guess| ==> Evaluate(secret, guess)[i].status == Correct) <==> guess == secret
  {
    if forall i :: 0 <= i < |guess| ==> Evaluate(secret, guess)[i].status == Correct {
      forall i | 0 <= i < |guess| ensures guess[i] == secret[i] {
        CorrectIffExact(secret, guess, i);
      }
    }
  }

  // Worked examples against the secret "1123".

  /** Guessing the secret itself: four Correct slots. */
  lemma ExampleExact()
    ensures Evaluate("1123", "1123") == [Slot('1', Correct), Slot('1', Correct), Slot('2', Correct), Slot('3', Correct)]
  {
  }

  /** "1111": the two 1s of the secret are claimed by the exact matches at
      positions 0 and 1, so nothing is left for positions 2 and 3. */
  lemma ExampleDuplicates()
    ensures Evaluate("1123", "1111") == [Slot('1', Correct), Slot('1', Correct), Slot('1', Wrong), Slot('1', Wrong)]
  {
    var secret, guess := "1123", "1111";
    assert Unmatched(secret, guess, '1', 2) == 0;
    assert Unmatched(secret, guess, '1', 4) == 0;
  }

  /** "3211": no exact match; every digit finds an unclaimed copy. */
  lemma ExampleAllMisplaced()
    ensures Evaluate("1123", "3211") == [Slot('3', Misplaced), Slot('2', Misplaced), Slot('1', Misplaced), Slot('1', Misplaced)]
  {
    var secret, guess := "1123", "3211";
    assert Unmatched(secret, guess, '1', 2) == 2;
    assert Unmatched(secret, guess, '1', 4) == 2;
    assert Unmatched(secret, guess, '2', 4) == 1;
    assert Unmatched(secret, guess, '3', 4) == 1;
    assert Unmatched(guess, secret, '1', 3) == 1;
  }
}
