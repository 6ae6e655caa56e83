# Starting5 quiz logic in Dafny

Starting5 is a daily basketball quiz: the player sees five NBA starters and
names the school (or, for players who did not go to college, the club or the
country) each of them came from. This project models the decision logic of
two files of the repository and proves what it promises:

- `app/main/routes.py`, the quiz view. It covers grading a submission
  player by player, with the hint penalty and the country fallback. It covers
  the replay rule, which keeps one score per signed-in user, quiz and day. It
  also covers the day streak, the inclusive percentile, the leaderboard, the
  performance message, the "Southern California" fix-up and the per-player
  accuracy.
- `generate_quiz.py`, the quiz generator. It covers `clean_name`, the
  `match_college_to_conf` classification ladder and the list of season labels.

Scores are counted in integer quarter-points. Every value the scorer produces
is a multiple of 0.25, so 1.0 is `4` and 0.75 is `3`. The message thresholds
4.0, 3.0 and 2.0 become 16, 12 and 8.

The modules are:

- `Optional`: the option type.
- `Text`: Python's `strip`, `lower`, `replace`, `in`, and `str(n)` with its inverse.
- `Records`: players and the two log rows.
- `Grading`: the scorer, the grading loop, the message tiers and the USC fix-up.
- `History`: the streak, percentile, leaderboard and accuracy over stored logs.
- `Submission`: the replay rule and the whole POST branch, on a `Store` class holding the tables.
- `Generator`: the generator's pure functions.

The database is modelled by its tables, as sequences of rows in insertion
order. The clock becomes a day-number parameter. The form becomes a map from
field names to text, and the fuzzy matcher becomes a function parameter.

## Model

| member | source | states |
|---|---|---|
| Text.Strip | generate_quiz.py:33 | `str.strip()`: the result is a slice of the input; only white space is cut from either end; the result neither starts nor ends with white space |
| Text.Lower | app/main/routes.py:112 | `str.lower()` on ASCII: same length, each character lower-cased, no upper-case letter left |
| Text.LowerIdempotent | app/main/routes.py:112 | lower-casing twice equals lower-casing once, so comparing lower-cased strings ignores case |
| Text.ReplaceAll | generate_quiz.py:22-32 | `str.replace`: every output character comes from the input or the replacement; a one-character pattern absent from the replacement is gone; no occurrence means no change |
| Text.Contains | generate_quiz.py:56 | Python's `w in s`: `w` is a prefix of `s` or of one of its suffixes (no contract; `ContainsAt` proves it equals occurrence at some position) |
| Text.ContainsAt | generate_quiz.py:56 | the `w in s` test holds exactly when `w` occurs at some position of `s` |
| Text.NatToString | generate_quiz.py:170 | `str(n)`: at least one character, all decimal digits, no leading zero above 9; `ParseNatToString` and `FourDigits` give its value and its digits |
| Text.ParseNatToString | generate_quiz.py:170 | reading back the decimal text of `n` gives `n` |
| Text.FourDigits | generate_quiz.py:170 | a year from 1000 to 9999 is written as its four digits, most significant first |
| Grading.StatusOf | app/main/routes.py:117 | the share status is "Used Hint" only for a correct answer given with the hint, "Correct" for a correct one without, and "Missed" exactly when wrong |
| Grading.GradeOne | app/main/routes.py:107-131 | one player earns at most 1.0; it is correct exactly when it earns points; a college answer is correct iff it matches the school ignoring case; any other answer is correct iff it matches the school or the country |
| Grading.CollegePoints | app/main/routes.py:110-115 | a college player earns 1.0 for the school without the hint, 0.75 with it, 0 otherwise |
| Grading.NonCollegePoints | app/main/routes.py:120-128 | a non-college player earns 1.0 for the school, else 0.75 for the country; the hint never changes the points |
| Grading.HintCost | app/main/routes.py:113 | the hint never changes correctness; it costs exactly 0.25 on a correct college answer and nothing anywhere else |
| Grading.GradeIgnoresCase | app/main/routes.py:112 | the grade of a lower-cased guess equals the grade of the guess |
| Grading.HintKey | app/main/routes.py:105 | the field name `hint_used_<idx>` (no contract; `HintKeysDistinct` proves that distinct positions give distinct names) |
| Grading.HintUsed | app/main/routes.py:105 | a player used the hint exactly when the form has that player's `hint_used_<i>` field and it reads "1" |
| Grading.HintKeysDistinct | app/main/routes.py:105 | players at different positions read different hint fields |
| Grading.FormAnswers | app/main/routes.py:104-105 | one answer per player, in player order, each holding that player; its guess is the player's form field (or "" when absent) stripped at both ends, and its hint flag is `HintUsed` of its position |
| Grading.TotalPoints | app/main/routes.py:115 | the sum of the points, as `score += pts` accumulates them on either branch (line 128 too); no contract of its own, `ScoreBound`, `FullTotalIffAllFull` and `GradeQuiz` are stated against it |
| Grading.ScoreBound | app/main/routes.py:97-128 | the total score never exceeds 1.0 per player |
| Grading.GuessRow | app/main/routes.py:135-142 | the guess row of one answer: user, player name, school, stripped guess, correctness and hint flag (no contract; `GradeQuiz` and `Store.Record` add exactly these rows) |
| Grading.GuessRows | app/main/routes.py:133-143 | one guess row per answer; `AnswerAt` proves that row `i` is the row of answer `i` |
| Grading.AnswerAt | app/main/routes.py:116-118 | position `i` of the grades, revealed answers and guess rows describes answer `i` |
| Grading.GradeAt | app/main/routes.py:116-117 | position `i` of the ticks and statuses is the correctness and status of grade `i` |
| Grading.FullTotalIffAllFull | app/main/routes.py:115 | grades each worth at most 1.0 add up to the maximum exactly when every one is 1.0 |
| Grading.PerfectIffAllFull | app/main/routes.py:29 | a submission reaches `max_points` exactly when every answer earns the full point |
| Grading.Reveal | app/main/routes.py:118 | the revealed answer: the school for a college player, the country and the school otherwise (no contract; `GradePlayer` and `GradeQuiz` are stated against it) |
| Grading.GradePlayer | app/main/routes.py:107-131 | the loop body computes the points and correctness `GradeOne` specifies and the answer to reveal |
| Grading.GradeQuiz | app/main/routes.py:96-143 | `max_points` is 1.0 per player; the score is the sum of the grades and at most `max_points`; ticks, revealed answers and statuses hold one entry per player in order; guess rows hold one per player only when a user is logged |
| Grading.PerformanceTier | app/main/routes.py:28-38 | "Perfect" exactly when the score reaches `max_points`; below that, the tier is the number of whole points minus one, clamped to 0..3 |
| Grading.PerformanceText | app/main/routes.py:30-38 | the message text of each tier (no contract; `Store.Summarise` states that the message is the text of the score's tier) |
| Grading.TierMonotone | app/main/routes.py:28-38 | a higher score never gets a lower tier |
| Grading.PlayerEntry.NormaliseUsc | app/main/routes.py:23-26 | the player dictionary becomes its normalised value, in place |
| Grading.UscNormalised | app/main/routes.py:23-26 | only "Southern California" changes: it becomes "USC", with the table's conference for "USC" or "P12"; every other field stays |
| Grading.NormalisedPlayers | app/main/routes.py:78-79 | the players after the normalising loop, as values: position `i` is `UscNormalised` of player `i` |
| Grading.UscIdempotent | app/main/routes.py:23-26 | normalising twice is normalising once |
| Grading.NormalisePlayers | app/main/routes.py:78-79 | every player dictionary of the quiz ends up normalised, even when one dictionary appears twice |
| History.StreakFrom | app/main/routes.py:170-178 | the walk after the newest day: a same-day entry is skipped, an entry one day earlier adds one and moves the walk, anything else stops it (no contract; `StreakFromBound` and `StreakFromRun` state the bound and the run) |
| History.StreakOf | app/main/routes.py:160-168 | the streak is 0 exactly when there is no history |
| History.Streak | app/main/routes.py:160-178 | the loop with `continue` and `break` computes `StreakOf` |
| History.StreakAtMostDistinctDays | app/main/routes.py:167-178 | the streak never exceeds the number of distinct days played |
| History.StreakExample | app/main/routes.py:170-178 | days D, D-1, D-1, D-3 give a streak of 2 |
| History.StreakIsRun | app/main/routes.py:167-178 | for a newest-first history, every day of the run ending at the newest day was played, and the day before the run was not |
| History.CountAtMost | app/main/routes.py:184 | the rank counts at most every score |
| History.CountAtMostMonotone | app/main/routes.py:184 | a higher score has at least as many scores at or below it |
| History.RoundHalfEven | app/main/routes.py:185 | Python's `round` of a non-negative fraction (no contract; `RoundHalfEvenNearest` characterises it) |
| History.RoundHalfEvenNearest | app/main/routes.py:185 | `round` gives an integer within half a unit of the ratio, and the even one on a tie |
| History.RoundHalfEvenMonotone | app/main/routes.py:185 | rounding preserves order |
| History.Percentile | app/main/routes.py:180-185 | an empty population gives 0; the percentile never exceeds 100 |
| History.PercentileMonotone | app/main/routes.py:180-185 | a higher score never has a lower percentile |
| History.PercentileOfBest | app/main/routes.py:180-185 | a score at least every score of the quiz is at the 100th percentile |
| History.PercentileExamples | app/main/routes.py:184-185 | ties count toward the rank (rank 3 of 5 gives 60) and halves round to even (1 of 8 gives 12) |
| History.JoinedRows | app/main/routes.py:44-46 | the inner join of the quiz's score rows with the users: never more rows than the logs |
| History.JoinedRowsFromLogs | app/main/routes.py:44-46 | every joined row comes from a score row of the quiz, with the name of its known user |
| History.JoinedRowsComplete | app/main/routes.py:44-46 | every score row of the quiz whose user is known is joined, with that user's name |
| History.TimeNoLater | app/main/routes.py:47 | `time_taken ASC` with a missing time first (no contract; `SortRowsSpec` and `LeaderboardExample` are stated with it) |
| History.RanksAbove | app/main/routes.py:47 | `score DESC, time_taken ASC`: a higher score, or the same score and a time no later (no contract; `Ranked`, `SortRowsSpec` and `CutKeepsBest` are stated with it) |
| History.Insert | app/main/routes.py:47 | inserting into the ordered rows adds one row |
| History.InsertPermutes | app/main/routes.py:47 | inserting a row adds exactly that row |
| History.InsertKeepsRanked | app/main/routes.py:47 | inserting into a ranked list keeps it ranked |
| History.SortRowsSpec | app/main/routes.py:47 | sorting orders by score descending then time ascending, and keeps exactly the same rows |
| History.SortRows | app/main/routes.py:47 | `ORDER BY score DESC, time_taken ASC` keeps the number of rows; `SortRowsSpec` gives its order and contents |
| History.CutKeepsBest | app/main/routes.py:48 | cutting a ranked list keeps it ranked, and no row left off ranks strictly above a kept row |
| History.LeaderboardSpec | app/main/routes.py:40-59 | the board holds `limit` rows, or all when fewer; it is ranked; its rows are joined rows of the quiz; no row left off ranks strictly above an entry |
| History.Leaderboard | app/main/routes.py:40-59 | `get_leaderboard`: never more than `limit` rows |
| History.LeaderboardKeepsBest | app/main/routes.py:40-50 | every score row of the quiz with a known user is on the board or ranks no higher than every entry |
| History.LeaderboardExample | app/main/routes.py:47 | equal scores are ordered by the faster time, and a lower score comes after both |
| History.SortRowsTies | app/main/routes.py:47 | two rows tied on score and time come out in reverse input order |
| History.GuessCount | app/main/routes.py:289 | the guesses about the player: at most all guesses |
| History.CorrectCount | app/main/routes.py:290 | the correct guesses about the player: at most all guesses |
| History.CorrectAtMostGuesses | app/main/routes.py:289-290 | correct guesses never outnumber guesses |
| History.Accuracy | app/main/routes.py:292 | no guesses gives 0, never a division by zero; accuracy lies in 0..100 |
| History.AccuracyFull | app/main/routes.py:292 | accuracy is 100 exactly when the player was guessed and every guess was right |
| History.PercentFull | app/main/routes.py:292 | a share is 100 percent of a positive total exactly when it equals the total |
| History.PercentWithin | app/main/routes.py:292 | a share of a positive total that is at most the total lies in 0..100 percent |
| Submission.FindToday | app/main/routes.py:84-94 | a found row belongs to the signed-in user, quiz and day; none is found for an anonymous user or when no such row exists |
| Submission.ScoreRowsToAdd | app/main/routes.py:145-158 | no score row on a replay, else exactly one with the computed score, maximum and time (no contract; `ReplayIsIdempotent`, `AnonymousAlwaysLogs` and `Store.Record` are stated against it) |
| Submission.GuessRowsToAdd | app/main/routes.py:133-143 | one guess row per player for a signed-in user without a score today, none otherwise (no contract; same partners) |
| Submission.Reported | app/main/routes.py:155-158 | the stored score, maximum and time on a replay, the computed ones otherwise (no contract; same partners) |
| Submission.ReplayIsIdempotent | app/main/routes.py:134-158 | a second submission the same day adds no score row and no guess row, whatever it submits, and reports the first submission's score, maximum and time |
| Submission.FindTodayAppend | app/main/routes.py:87-94 | the first match in appended logs is the first match of the old logs, if any, else the first in the new rows |
| Submission.AnonymousAlwaysLogs | app/main/routes.py:145-148 | an anonymous submission always adds exactly one score row with no user, and no guess rows |
| Submission.UserDays | app/main/routes.py:162-166 | the dates of the user's score rows, newest first: at most one per row |
| Submission.UserDaysNewestFirst | app/main/routes.py:162-166 | rows added day by day give the user's dates newest first |
| Submission.QuizScores | app/main/routes.py:180 | the scores of every row of the quiz: at most one per row |
| Submission.SubmittedAnswers | app/main/routes.py:78-79 | one answer per player of the quiz record, in order, for the player after `normalise_usc` |
| Submission.Store.Record | app/main/routes.py:84-158 | grades the answers; without a same-day score it adds one score row, plus one guess row per player for a signed-in user; on a replay it adds nothing and reports the stored score, maximum and time; one row per user, quiz and day is kept |
| Submission.Store.Summarise | app/main/routes.py:160-190 | the streak is that of the user's dates (0 when anonymous); the percentile is of the reported score among all scores of the quiz; the board is the top 10; it is shown iff non-empty or anonymous; the tier is of the reported score, and the message is that tier's text |
| Submission.Store.Submit | app/main/routes.py:78-190 | the POST branch from the loaded players, the conference table and the form: normalises the players, reads the answers from the form, then gives `Record`'s new tables and reported score and `Summarise`'s page on those tables |
| Submission.AddKeepsOnePerDay | app/main/routes.py:145-153 | adding a row that the same-day lookup did not find keeps one row per user, quiz and day |
| Generator.CleanString | generate_quiz.py:20-33 | the chain of `clean_name` on a string: lower-case, eleven replacements in order, strip (no contract; `CleanNameIsClean` states what it leaves) |
| Generator.CleanName | generate_quiz.py:19-34 | `clean_name`: `CleanString` of a string, "" for anything else (no contract; `CleanNameIsClean` and `CleanMissing` are stated against it) |
| Generator.CleanNameIsClean | generate_quiz.py:19-33 | a cleaned name has no upper-case letter, '.', '-', '(' or ')', and no white space at either end |
| Generator.CleanMissing | generate_quiz.py:34 | a value that is not a string cleans to "" |
| Generator.CleanedOfficials | generate_quiz.py:36 | the cleaned official-name column: one entry per row, the `clean_name` of that row's official name |
| Generator.CleanedCommons | generate_quiz.py:37 | the cleaned common-name column: one entry per row, the `clean_name` of that row's common name |
| Generator.IsUnknown | generate_quiz.py:41 | an empty name, or one reading "unknown" or "none" after lower-casing and stripping (no contract; `UnknownFirst` and the other ladder lemmas are stated with it) |
| Generator.MentionsAny | generate_quiz.py:56-58 | `any(w in cleaned for w in words)`: some word of the list occurs in the name (no contract; `KeywordLadder` is stated with it) |
| Generator.FirstIndex | generate_quiz.py:48 | the position of the first row with the matched cleaned name |
| Generator.OfficialHit | generate_quiz.py:46-48 | a row of the table, found exactly when the official-name match scores at least 85 |
| Generator.CommonHit | generate_quiz.py:51-53 | a row of the table, found exactly when the common-name match scores at least 85 |
| Generator.MatchCollegeToConf | generate_quiz.py:40-61 | the school type is one of the four; every non-college result has conference "Other" |
| Generator.UnknownFirst | generate_quiz.py:41-42 | an empty, "unknown" or "none" name gives ("Unknown", "Other", "Other") |
| Generator.OfficialMatchWins | generate_quiz.py:46-49 | an official-name match of at least 85 gives the first row with that cleaned name: its common name, "College", its conference |
| Generator.CommonNotConsulted | generate_quiz.py:46-54 | after a successful official-name match, the common-name query does not affect the result |
| Generator.CommonMatchWins | generate_quiz.py:51-54 | when the official-name match misses, a common-name match of at least 85 gives the first row with that cleaned common name: its common name, "College", its conference |
| Generator.KeywordLadder | generate_quiz.py:51-61 | with no match at 85, the raw name is kept with conference "Other"; a high-school word gives "High School" before any international word; an international word alone gives "International"; otherwise "Other" |
| Generator.LastTwo | generate_quiz.py:170 | `s[-2:]` keeps the last two characters of a string of length at least 2 |
| Generator.SeasonLabel | generate_quiz.py:170 | the label of one season (no contract; `SeasonLabelRoundTrip` states its shape) |
| Generator.LastTwoDigits | generate_quiz.py:170 | the last two characters of a four-digit year are its tens and units digits, and read back as the year modulo 100 |
| Generator.Seasons | generate_quiz.py:170 | 14 labels, the `i`-th being the label of 2010 + `i` |
| Generator.SeasonLabelRoundTrip | generate_quiz.py:170 | a four-digit year's label has 7 characters, all digits but the dash at position 4: the year written out, the dash, then the tens and units digits of the next year, which read back as the year and the next year modulo 100 |
| Generator.SeasonExample | generate_quiz.py:170 | the 2019 season is labelled "2019-20" |

## Left out

- Flask routing, templates, redirects, response headers, reading the quiz JSON file and listing the current-quiz directory: framework and file plumbing. The form is a map from field names to text and the quiz is a sequence of players.
- The GET branch of the quiz view: it only repeats the USC fix-up and the streak walk, which `NormalisePlayers` and `Streak` model, and always hides the leaderboard.
- SQLAlchemy sessions and commits: the tables are sequences in a `Store`. Rows are kept in insertion order, and this is assumed to be the order of their timestamps. A row's date is the day it was inserted.
- The check-then-insert race between two concurrent submissions: this is a database concurrency concern. `Store.Record` is atomic.
- `FindToday` returns the first matching row in insertion order. The source's `.first()` has no `ORDER BY`, so the database may return any match; with one row per user, quiz and day, which `Store.Record` preserves, there is only one.
- Leaderboard ties on both score and time keep no particular order in SQL. `SortRows` lists rows tied on both keys in reverse insertion order (`SortRowsTies`); SQL promises no order for them, so at the cut of 10 either tied row may take the last place. `LeaderboardSpec` states only what SQL guarantees. A missing time sorts first, as MySQL orders NULL in ascending order.
- Accuracy: `round(..., 1)` on the float ratio is not modelled; `Accuracy` is the exact real ratio.
- Float rounding with `round(..., 2)` of scores on the leaderboard and the result page: quarter-points are exact, so it changes nothing. The `None` branch for `max_points` is not modelled, because every score row the view writes has a maximum.
- The percentile uses exact integer round-half-even on `100 * rank / n`. Python rounds the float quotient, and the two agree whenever that quotient is exact.
- `scores.sort()` before counting: the count does not depend on order.
- `datetime.utcnow()`, the share-message text and its date string, and the contribution percentages of the generator: clock and formatting.
- Store.Submit: normalises the players as values with `NormalisedPlayers`; the in-place loop over the player dictionaries, where one dictionary may appear twice, is `NormalisePlayers`, which gives each position the same `UscNormalised` value.
- GuessCount/CorrectCount: the player-name filter is exact string equality. The database compares text under its column collation, and MySQL's default collations treat names that differ only in case (and sometimes accents or trailing spaces) as equal, so `/player_accuracy/lebron james` counts the rows stored as "LeBron James" where the model counts none. The `quiz_id` filters of the leaderboard, the same-day lookup and the percentile are exact equality too; they only ever see the quiz file's base name.
- Records.Player: `school` and `country` are strings. A quiz record whose school is not a string (a blank Common cell of the institutions table, written out as `NaN`) or whose country is null (the COUNTRY field of the player-info frame) makes the view raise on `.lower()` at app/main/routes.py:112, 122 or 125; that crash is not modelled.
- Text.Lower: maps only ASCII letters; Python's `lower()` also maps other Unicode letters.
- generate_quiz.py's nba_api calls, `time.sleep`, `random.choice` and `random.shuffle`, the `while saved < 30` loop, the pandas CSV loading and the JSON output: network, randomness and I/O.
- The rapidfuzz `token_sort_ratio` scorer: a foreign library, modelled as a `Matcher` parameter that answers with one of the choices it was given, or nothing.
- `match_college_to_conf` with a `school_raw` that is not a string (the SCHOOL column of nba_api's player-info frame can hold a null): Python raises on `.lower()` unless the value is falsy. The model takes a string.
- app/__init__.py and config.py: application wiring and configuration, with no logic to model.
