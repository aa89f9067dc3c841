/** The game: a secret code, the history of feedback rows, the attempt
    counter and the game status, with `SubmitGuess` as the only operation
    that changes them. */
module Numberle {
  import opened Enums
  import opened Evaluator

  /** Number of attempts after which a game without a win is lost. */
  const AttemptLimit: nat := 6

  /** Length of the secret and of every guess. */
  const CodeLength: nat := 4

  /** A code of the expected length. The user interface also insists on
      digits, but nothing in the engine depends on that. */
  predicate IsCode(s: string)
  {
    |s| == CodeLength
  }

  /** `_update_status`: a guess equal to the secret wins; otherwise reaching
      the attempt limit loses; otherwise the status stays as it was. */
  function NextStatus(current: GameStatus, guess: string, secret: string, attemptCount: nat): GameStatus
  {
    if guess == secret then Won
    else if attemptCount >= AttemptLimit then Lost
    else current
  }

  /** Status of a fresh game after the given guesses were submitted in order. */
  function StatusAfter(secret: string, guesses: seq<string>): GameStatus
    decreases |guesses|
  {
    if guesses == [] then Ongoing
    else NextStatus(StatusAfter(secret, guesses[..|guesses| - 1]), guesses[|guesses| - 1], secret, |guesses|)
  }

  /** The status as a direct function of the guesses: the last guess decides
      a win; short of that the limit decides a loss; below the limit an
      earlier winning guess still counts. */
  lemma {:induction false} StatusAfterClosedForm(secret: string, guesses: seq<string>)
    ensures StatusAfter(secret, guesses) ==
      if |guesses| > 0 && guesses[|guesses| - 1] == secret then Won
      else if |guesses| >= AttemptLimit then Lost
      else if secret in guesses then Won
      else Ongoing
  {
    if guesses != [] {
      var prefix := guesses[..|guesses| - 1];
      StatusAfterClosedForm(secret, prefix);
      assert guesses == prefix + [guesses[|guesses| - 1]];
    }
  }

  /** Play that stops as soon as the game is over, as the user interface
      does: at most six guesses, a win exactly when some guess equalled the
      secret, a loss exactly after six guesses none of which did. */
  lemma PlayWhileOngoing(secret: string, guesses: seq<string>)
    requires forall k :: 0 <= k < |guesses| ==> StatusAfter(secret, guesses[..k]) == Ongoing
    ensures |guesses| <= AttemptLimit
    ensures StatusAfter(secret, guesses) == Won <==> secret in guesses
    ensures StatusAfter(secret, guesses) == Lost <==> |guesses| == AttemptLimit && secret !in guesses
    ensures StatusAfter(secret, guesses) == Ongoing <==> |guesses| < AttemptLimit && secret !in guesses
  {
    if |guesses| > AttemptLimit {
      StatusAfterClosedForm(secret, guesses[..AttemptLimit]);
    }
    forall j | 0 <= j < |guesses| - 1 ensures guesses[j] != secret {
      StatusAfterClosedForm(secret, guesses[..j + 1]);
    }
    StatusAfterClosedForm(secret, guesses);
  }

  /** The engine does not refuse guesses once the game is over: a won game
      that receives a non-matching guess at or past the limit becomes Lost. */
  lemma LateGuessOverwritesWin(secret: string, guesses: seq<string>, guess: string)
    requires StatusAfter(secret, guesses) == Won
    requires guess != secret && |guesses| + 1 >= AttemptLimit
    ensures StatusAfter(secret, guesses + [guess]) == Lost
  {
    assert (guesses + [guess])[..|guesses|] == guesses;
  }

  /** Likewise a lost game that receives the secret becomes Won again. */
  lemma LateGuessWinsAgain(secret: string, guesses: seq<string>)
    requires StatusAfter(secret, guesses) == Lost
    ensures StatusAfter(secret, guesses + [secret]) == Won
  {
    assert (guesses + [secret])[..|guesses|] == guesses;
  }

  /** The game state. `submitted` records the guesses behind the rows of
      `allGuesses`; it exists for the specification only. */
  class Game {
    var secret: string
    var allGuesses: seq<seq<Slot>>
    var attemptCount: nat
    var status: GameStatus
    ghost var submitted: seq<string>

    /** The history holds one row per attempt, each row is the evaluation of
        its guess, and the status is the one those guesses lead to. */
    ghost predicate Valid()
      reads this
    {
      IsCode(secret)
      && |submitted| == |allGuesses| == attemptCount
      && (forall k :: 0 <= k < |submitted| ==>
            IsCode(submitted[k]) && allGuesses[k] == Evaluate(secret, submitted[k]))
      && status == StatusAfter(secret, submitted)
    }

    constructor (secret: string)
      requires IsCode(secret)
      ensures Valid()
      ensures this.secret == secret && allGuesses == [] && attemptCount == 0 && status == Ongoing
      ensures submitted == []
    {
      this.secret := secret;
      allGuesses := [];
      attemptCount := 0;
      status := Ongoing;
      submitted := [];
    }

    /** A won game has seen the secret among its guesses. */
    function IsWon(): (r: bool)
      reads this
      ensures Valid() && r ==> secret in submitted
    {
      StatusAfterClosedForm(secret, submitted);
      status == Won
    }

    /** A lost game has used up its attempts and its last guess missed. */
    function IsLost(): (r: bool)
      reads this
      ensures Valid() && r ==> attemptCount >= AttemptLimit && submitted[|submitted| - 1] != secret
    {
      StatusAfterClosedForm(secret, submitted);
      status == Lost
    }

    /** Over means won or lost; a valid game that has used up its attempts
        is over. */
    function IsOver(): (r: bool)
      reads this
      ensures r <==> IsWon() || IsLost()
      ensures Valid() && attemptCount >= AttemptLimit ==> r
    {
      StatusAfterClosedForm(secret, submitted);
      status != Ongoing
    }

    /** Attempts left: the limit minus the rows recorded so far; a game
        with none left is over. */
    function AttemptsLeft(): (r: int)
      reads this
      ensures Valid() ==> r == AttemptLimit - |allGuesses|
      ensures Valid() && r <= 0 ==> IsOver()
    {
      StatusAfterClosedForm(secret, submitted);
      AttemptLimit - attemptCount
    }

    /** `_update_status`, run after the counter has been incremented. */
    method UpdateStatus(guess: string)
      modifies this`status
      ensures status == NextStatus(old(status), guess, secret, attemptCount)
    {
      if guess == secret {
        status := Won;
      } else if attemptCount >= AttemptLimit {
        status := Lost;
      }
    }

    /** `submit_guess`: evaluate the guess, append the row to the history,
        count the attempt and update the status; the secret is untouched.
        Nothing stops a call after the game is over. */
    method SubmitGuess(guess: string) returns (row: seq<Slot>)
      requires Valid() && IsCode(guess)
      modifies this
      ensures Valid()
      ensures row == Evaluate(secret, guess)
      ensures secret == old(secret)
      ensures allGuesses == old(allGuesses) + [row]
      ensures attemptCount == old(attemptCount) + 1
      ensures status == NextStatus(old(status), guess, secret, attemptCount)
      ensures submitted == old(submitted) + [guess]
    {
      row := Grade(secret, guess);
      allGuesses := allGuesses + [row];
      attemptCount := attemptCount + 1;
      submitted := submitted + [guess];
      assert submitted[..|submitted| - 1] == old(submitted);
      UpdateStatus(guess);
    }
  }

  /** Six guesses that all miss the secret "1123" lose the game, with no
      attempts left. */
  method SixMisses() returns (lost: bool, left: int)
    ensures lost && left == 0
  {
    var game := new Game("1123");
    var row := game.SubmitGuess("1111");
    row := game.SubmitGuess("3211");
    assert game.AttemptsLeft() == 4;
    row := game.SubmitGuess("0000");
    row := game.SubmitGuess("9999");
    row := game.SubmitGuess("1124");
    row := game.SubmitGuess("1132");
    lost := game.IsLost();
    left := game.AttemptsLeft();
  }

  /** A win on the first guess ends the game at once, with five attempts
      left. */
  method FirstGuessWins() returns (won: bool, left: int, row: seq<Slot>)
    ensures won && left == 5
    ensures row == [Slot('1', Correct), Slot('1', Correct), Slot('2', Correct), Slot('3', Correct)]
  {
    var game := new Game("1123");
    row := game.SubmitGuess("1123");
    ExampleExact();
    won := game.IsWon();
    left := game.AttemptsLeft();
  }
}
