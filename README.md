# Numberle guess evaluation, modelled in Dafny

Numberle is Wordle over 4-digit codes. The player has six attempts to guess a
hidden secret. After each guess the engine reports, digit by digit, whether
the digit is in the right place (`Correct`), present elsewhere (`Misplaced`)
or absent (`Wrong`). It also tracks whether the game is ongoing, won or lost.
This project models that engine: the `Game` class of `game.py` and the two
enumerations of `enums.py`.

- `enums.dfy` (module `Enums`): `DigitStatus` and `GameStatus` as datatypes.
- `evaluator.dfy` (module `Evaluator`): the two-pass evaluation inside
  `submit_guess`.
  - `Grade` allocates the row of unassigned slots (`Option<Slot>`, `None` for
    Python's `None`) and the pool, an array copy of the secret whose blanks
    are `None`. It then runs the two passes.
  - `MarkExact` is the first loop and `MarkRest` the second.
  - `FirstIndex` is `list.index`, the leftmost occurrence.
  - Grade's result is proved equal to `Evaluate`, a closed-form reference
    definition. A slot is `Correct` when the guess and the secret agree
    there. Otherwise it is `Misplaced` when fewer earlier non-exact guess
    positions hold the same digit than there are non-exact secret positions
    holding it. Otherwise it is `Wrong`.
  - The loop invariant of the second pass says that, for every digit, the
    unblanked copies left in the pool equal the unmatched supply minus the
    demand so far, floored at zero.
- `game.dfy` (module `Numberle`): the `Game` class.
  - Fields: `secret`, `allGuesses`, `attemptCount` and `status`, plus a ghost
    `submitted` list of the guesses behind the rows.
  - `Valid()` ties these together: one row per attempt, each row the
    evaluation of its guess, and the status equal to `StatusAfter` of the
    guesses.
  - `NextStatus` is one step of `_update_status`. It is the specification of
    the method `Game.UpdateStatus`, and `StatusAfter` folds it over the
    guesses.
  - The four read-only properties are functions.

The engine does not refuse guesses once the game is over, and the model keeps
that behaviour. `SubmitGuess` has no `status == Ongoing` precondition. As a
result, a won game that keeps receiving non-matching guesses becomes `Lost`
once the counter reaches six (`LateGuessOverwritesWin`), and `attemptCount`
can pass six. A `Won` game always had the secret among its guesses
(`Game.IsWon`), but the converse fails once play continues after the end: a
game can have seen the secret and still be `Lost`, and a `Lost` game turns
back into `Won` on a later matching guess (`LateGuessWinsAgain`). For play
that stops once the game is over, which is what the user interface does, the
count never passes six and the game is `Won` exactly when some guess equalled
the secret (`PlayWhileOngoing`).

Inputs that the model takes as parameters:
- The secret is a constructor argument.
- Guesses are arguments of `SubmitGuess`.

`SubmitGuess` requires a guess of exactly four characters, as the secret
has. The user interface also checks that they are digits before calling;
the engine does not depend on it. The evaluator itself (`Grade`) needs
only equal lengths.

## Model

| member | source | states |
|---|---|---|
| `Evaluator.FirstIndex` | game.py:85 | the returned index holds the searched value and no earlier index does (leftmost occurrence, as `list.index`) |
| `Evaluator.MarkExact` | game.py:74-78 | after pass 1, every exact-match slot is `Correct` and every other slot is unassigned; the pool is the secret with the exact matches blanked |
| `Evaluator.MarkRest` | game.py:80-87 | after pass 2, every slot is assigned and equals the reference verdict of `Evaluate`; the pool holds, for every digit, exactly the copies no slot claimed |
| `Evaluator.Grade` | game.py:68-87 | the row built by the two passes over the array pool equals the reference row `Evaluate(secret, guess)` |
| `Evaluator.ExactPoolUnclaimed` | game.py:72-78 | for every digit, the copies left in the pool after pass 1 number the secret positions holding it that were not exact matches |
| `Evaluator.BlankOut` | game.py:85 | blanking one pool cell that holds d removes exactly one copy of d and leaves every other digit's count unchanged |
| `Evaluator.CorrectStep` | game.py:81-82 | pass 2 skipping a position already marked `Correct` changes no digit's outstanding supply |
| `Evaluator.MisplacedStep` | game.py:83-85 | when pass 2 finds the digit in the pool, the reference verdict is `Misplaced`, and after blanking one copy the pool counts match the outstanding supply for the next position |
| `Evaluator.WrongStep` | game.py:86-87 | when pass 2 finds no copy in the pool, the reference verdict is `Wrong` and the pool counts stay matched |
| `Evaluator.CorrectIffExact` | game.py:75-78 | the row has one slot per guessed digit, each slot carries the guessed digit, and a slot is `Correct` if and only if guess and secret agree at that position |
| `Evaluator.CorrectPrefix` | game.py:75-78 | the `Correct` slots for digit d among the first i are exactly the positions where both guess and secret hold d |
| `Evaluator.MisplacedPrefix` | game.py:80-87 | the `Misplaced` slots for digit d among the first i number the non-exact demand for d so far, capped by the unmatched supply of d in the secret |
| `Evaluator.ClaimedIsMin` | game.py:72-87 | for every digit d, the slots claiming d (`Correct` or `Misplaced`) number the smaller of its counts in the secret and in the guess, so never more than the secret holds |
| `Evaluator.WrongMeansExhausted` | game.py:83-87 | a `Wrong` slot is not an exact match, and every unmatched copy of its digit was already claimed by an earlier `Misplaced` slot |
| `Evaluator.MisplacedMeansCopy` | game.py:83-85 | a `Misplaced` slot is not an exact match, an unclaimed copy of its digit was left when pass 2 reached it, and the digit stands unmatched at another secret position |
| `Evaluator.DistinctGuessVerdicts` | game.py:74-87 | for a guess without repeated digits: `Misplaced` if and only if the digit is in the secret but not at this position; `Wrong` if and only if it is not in the secret |
| `Evaluator.AllCorrectIffEqual` | game.py:74-78 | every slot is `Correct` if and only if the guess equals the secret |
| `Evaluator.ExampleExact` | game.py:74-87 | secret 1123, guess 1123: four `Correct` |
| `Evaluator.ExampleDuplicates` | game.py:74-87 | secret 1123, guess 1111: `Correct, Correct, Wrong, Wrong` |
| `Evaluator.ExampleAllMisplaced` | game.py:74-87 | secret 1123, guess 3211: four `Misplaced` |
| `Numberle.StatusAfterClosedForm` | game.py:46-50 | after any guess sequence the status is `Won` if the last guess is the secret; else `Lost` at six or more attempts; else `Won` if an earlier guess was the secret; else `Ongoing` |
| `Numberle.PlayWhileOngoing` | game.py:46-50 | if guesses stop once the game is over: at most six guesses; `Won` if and only if some guess was the secret; `Lost` if and only if six guesses all missed; `Ongoing` otherwise |
| `Numberle.LateGuessOverwritesWin` | game.py:46-50 | a won game that gets a non-matching guess at or past the sixth attempt becomes `Lost` (no guard against play after the end) |
| `Numberle.LateGuessWinsAgain` | game.py:46-50 | a lost game that gets a guess equal to the secret becomes `Won` again (no guard against play after the end) |
| `Numberle.Game.constructor` | game.py:12-28 | a new game holds the given secret, an empty history, count 0, status `Ongoing`, and satisfies the invariant |
| `Numberle.Game.IsWon` | game.py:30-32 | in a valid game, won implies that some submitted guess equalled the secret |
| `Numberle.Game.IsOver` | game.py:34-36 | over if and only if won or lost; a valid game with six or more attempts is over |
| `Numberle.Game.IsLost` | game.py:38-40 | in a valid game, lost implies at least six attempts and a last guess that missed |
| `Numberle.Game.AttemptsLeft` | game.py:42-44 | in a valid game, the limit minus the number of recorded rows; none left implies the game is over |
| `Numberle.Game.UpdateStatus` | game.py:46-50 | the new status is `Won` on equality with the secret, else `Lost` at the limit, else unchanged; nothing else changes |
| `Numberle.Game.SubmitGuess` | game.py:55-97 | returns the reference row; appends exactly that row; increments the counter by one; records the guess; sets the status by `_update_status`; leaves the secret unchanged; keeps the invariant |
| `Numberle.SixMisses` | game.py:42-50 | six non-matching guesses against 1123 leave the game lost with zero attempts left (four left after two) |
| `Numberle.FirstGuessWins` | game.py:55-97 | guessing 1123 against 1123 returns four `Correct` slots, wins, and leaves five attempts |

## Left out

- Random secret generation (`random.randint(1000, 9999)`): randomness is not modelled; the secret is a constructor argument.
- The fallback to a random secret when the supplied one is empty: the constructor requires a secret of four characters instead. Those characters need not be digits; a non-digit secret is compared like any other.
- `__repr__`: display formatting only.
- `main.py`, the tkinter interface: widgets, colours, dialogs and the event loop. Of its input check (four characters, all digits), only the length half becomes the precondition of `SubmitGuess`; non-digit guesses are accepted and evaluated like any other characters.
- Guesses of the wrong length: in the source a longer guess than the secret raises `IndexError`; a shorter one is compared position by position against the secret's prefix in pass 1, while pass 2 searches the whole secret for misplaced digits (secret 1234, guess 4 gives `Misplaced`); the model excludes both by the length precondition. Non-digit guesses of the right length are not excluded.
- Aliasing of rows: rows are values (`seq<Slot>`), so the fact that the returned list and the one stored in `all_guesses` are the same object is not modelled; the source mutates neither afterwards.
- Loop placement: the two loops of `submit_guess` are written as two methods, `MarkExact` and `MarkRest`, which `Grade` calls in order; each keeps its loop and its invariants.
