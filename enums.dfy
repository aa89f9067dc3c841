/** The two closed enumerations of the game: the verdict on one guessed
    digit, and the state of a whole game. */
module Enums {

  /** Verdict on one digit of a guess. */
  datatype DigitStatus = Correct | Misplaced | Wrong

  /** State of a game; Won and Lost are the end states. */
  datatype GameStatus = Won | Ongoing | Lost
}
