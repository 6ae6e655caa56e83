/**
  The records the quiz view reads and writes: a player of a quiz record, and the
  two log rows it hands to the database.

  Points are counted in quarter-points: every value the scorer produces
  (0, 0.75, 1.0 per player and their sums) is a multiple of 0.25, so
  `4` stands for 1.0 and `3` for 0.75.
 */
module Records {
  import opened Optional

  /** One starter of a quiz record, as read from its JSON file. */
  datatype Player = Player(
    name: string,
    school: string,
    schoolType: string,   // "College", "High School", "International" or "Other"
    conference: string,
    country: string,
    position: string)

  /** One row per graded player, written for signed-in users only. */
  datatype GuessLog = GuessLog(
    userId: nat,
    playerName: string,
    school: string,
    guess: string,
    isCorrect: bool,
    usedHint: bool)

  /** One row per submission that was not a same-day replay.
      `day` is the calendar date of the row's timestamp, as a day number;
      `timeTaken` is empty when the form field was missing or not an integer. */
  datatype ScoreLog = ScoreLog(
    quizId: string,
    userId: Option<nat>,
    score: int,       // quarter-points
    maxPoints: int,   // quarter-points
    timeTaken: Option<int>,
    day: int)
}
