/**
  Submitting a quiz (app/main/routes.py): grading the answers, the replay rule
  that keeps one score per user, quiz and day, and what the result page then
  shows: the score, the streak, the percentile, the leaderboard and the
  message.

  The database is a `Store` holding the two log tables and the users table.
  Rows are kept in insertion order, which is also the order of their
  timestamps; the date of a row is the day it was inserted.
 */
module Submission {
  import opened Optional
  import opened Records
  import opened Grading
  import opened History

  /** Size of the leaderboard shown after a submission. */
  const BoardSize: nat := 10

  /** The first row of `logs` for `user` and `quizId` dated `today`. Only a
      signed-in user has such a row; an anonymous submitter never does. */
  function FindToday(logs: seq<ScoreLog>, user: Option<nat>, quizId: string, today: int): (found: Option<ScoreLog>)
    ensures found.Some? ==>
      && found.value in logs && user.Some? && found.value.userId == user
      && found.value.quizId == quizId && found.value.day == today
    ensures found.None? ==> user.None? || forall l :: l in logs ==>
      !(l.userId == user && l.quizId == quizId && l.day == today)
  {
    if user.None? || logs == [] then None
    else if logs[0].userId == user && logs[0].quizId == quizId && logs[0].day == today then Some(logs[0])
    else FindToday(logs[1..], user, quizId, today)
  }

  /** The score row a submission adds: none when the user already has one for
      today, else exactly one (anonymous submissions always add one). */
  function ScoreRowsToAdd(logs: seq<ScoreLog>, user: Option<nat>, quizId: string, today: int,
                          score: int, maxPoints: int, timeTaken: Option<int>): seq<ScoreLog>
  {
    if FindToday(logs, user, quizId, today).Some? then []
    else [ScoreLog(quizId, user, score, maxPoints, timeTaken, today)]
  }

  /** The guess rows a submission adds: one per answer, for a signed-in user
      without a score for today only. */
  function GuessRowsToAdd(logs: seq<ScoreLog>, user: Option<nat>, quizId: string, today: int,
                          answers: seq<Answer>): seq<GuessLog>
  {
    if user.Some? && FindToday(logs, user, quizId, today).None? then GuessRows(user.value, answers) else []
  }

  /** The score, maximum and time the result page reports: the stored ones on
      a replay, the ones just computed otherwise. */
  function Reported(logs: seq<ScoreLog>, user: Option<nat>, quizId: string, today: int,
                    score: int, maxPoints: int, timeTaken: Option<int>): (int, int, Option<int>)
  {
    match FindToday(logs, user, quizId, today)
    case Some(l) => (l.score, l.maxPoints, l.timeTaken)
    case None => (score, maxPoints, timeTaken)
  }

  /** A replay on the same day adds no rows, whatever is submitted the second
      time, and reports the score, maximum and time of the first submission. */
  lemma ReplayIsIdempotent(logs: seq<ScoreLog>, uid: nat, quizId: string, today: int,
                           score: int, maxPoints: int, timeTaken: Option<int>,
                           answers2: seq<Answer>, score2: int, maxPoints2: int, timeTaken2: Option<int>)
    ensures var user := Some(uid);
      var logs' := logs + ScoreRowsToAdd(logs, user, quizId, today, score, maxPoints, timeTaken);
      && ScoreRowsToAdd(logs', user, quizId, today, score2, maxPoints2, timeTaken2) == []
      && GuessRowsToAdd(logs', user, quizId, today, answers2) == []
      && Reported(logs', user, quizId, today, score2, maxPoints2, timeTaken2)
         == Reported(logs, user, quizId, today, score, maxPoints, timeTaken)
  {
    var user := Some(uid);
    var row := ScoreLog(quizId, user, score, maxPoints, timeTaken, today);
    var first := FindToday(logs, user, quizId, today);
    if first.None? {
      FindTodayAppend(logs, [row], user, quizId, today);
      FindTodayNext(row, user, quizId, today);
      assert FindToday(logs + [row], user, quizId, today) == Some(row);
    } else {
      assert logs + [] == logs;
    }
  }

  lemma {:induction false} FindTodayAppend(logs: seq<ScoreLog>, more: seq<ScoreLog>, user: Option<nat>, quizId: string, today: int)
    ensures FindToday(logs + more, user, quizId, today) ==
      if FindToday(logs, user, quizId, today).Some? then FindToday(logs, user, quizId, today)
      else FindToday(more, user, quizId, today)
    decreases |logs|
  {
    if logs == [] {
      assert logs + more == more;
    } else if user.Some? {
      assert (logs + more)[0] == logs[0];
      assert (logs + more)[1..] == logs[1..] + more;
      FindTodayAppend(logs[1..], more, user, quizId, today);
    }
  }

  lemma FindTodayNext(row: ScoreLog, user: Option<nat>, quizId: string, today: int)
    requires user.Some? && row.userId == user && row.quizId == quizId && row.day == today
    ensures FindToday([row], user, quizId, today) == Some(row)
  {
  }

  /** An anonymous submission is never a replay: it always adds a score row. */
  lemma AnonymousAlwaysLogs(logs: seq<ScoreLog>, quizId: string, today: int,
                            score: int, maxPoints: int, timeTaken: Option<int>, answers: seq<Answer>)
    ensures ScoreRowsToAdd(logs, None, quizId, today, score, maxPoints, timeTaken)
      == [ScoreLog(quizId, None, score, maxPoints, timeTaken, today)]
    ensures GuessRowsToAdd(logs, None, quizId, today, answers) == []
  {
  }

  /** The dates of the user's score rows, newest first. */
  function UserDays(logs: seq<ScoreLog>, uid: nat): (days: seq<int>)
    ensures |days| <= |logs|
  {
    if logs == [] then []
    else
      var l := logs[|logs| - 1];
      (if l.userId == Some(uid) then [l.day] else []) + UserDays(logs[..|logs| - 1], uid)
  }

  /** Rows are added with today's date, so a history that only ever grew day by
      day is listed newest first. */
  lemma {:induction false} UserDaysNewestFirst(logs: seq<ScoreLog>, uid: nat)
    requires forall i, j :: 0 <= i < j < |logs| ==> logs[i].day <= logs[j].day
    ensures NewestFirst(UserDays(logs, uid))
  {
    if logs != [] {
      var init := logs[..|logs| - 1];
      var l := logs[|logs| - 1];
      UserDaysNewestFirst(init, uid);
      var rest := UserDays(init, uid);
      forall d | d in rest
        ensures d <= l.day
      {
        UserDaysFrom(init, uid, d);
      }
      if l.userId == Some(uid) {
        var days := [l.day] + rest;
        forall i, j | 0 <= i < j < |days|
          ensures days[j] <= days[i]
        {
          assert days[j] == rest[j - 1] && rest[j - 1] in rest;
          if i > 0 {
            assert days[i] == rest[i - 1];
          }
        }
      }
    }
  }

  lemma {:induction false} UserDaysFrom(logs: seq<ScoreLog>, uid: nat, d: int)
    requires d in UserDays(logs, uid)
    ensures exists i :: 0 <= i < |logs| && logs[i].day == d
  {
    var init := logs[..|logs| - 1];
    var l := logs[|logs| - 1];
    if l.userId == Some(uid) && d == l.day {
      assert logs[|logs| - 1].day == d;
    } else {
      UserDaysFrom(init, uid, d);
      var i :| 0 <= i < |init| && init[i].day == d;
      assert logs[i].day == d;
    }
  }

  /** The scores of every row of the quiz, signed-in or not. */
  function QuizScores(logs: seq<ScoreLog>, quizId: string): (scores: seq<int>)
    ensures |scores| <= |logs|
  {
    if logs == [] then []
    else
      var l := logs[|logs| - 1];
      QuizScores(logs[..|logs| - 1], quizId) + (if l.quizId == quizId then [l.score] else [])
  }

  /** What the result page shows after a submission. */
  datatype Outcome = Outcome(
    score: int,
    maxPoints: int,
    timeTaken: Option<int>,
    results: seq<bool>,
    correctAnswers: seq<string>,
    statuses: seq<Status>,
    streak: nat,
    percentile: nat,
    leaderboard: seq<BoardRow>,
    showLeaderboard: bool,
    tier: Tier,
    message: string)

  /** The database the quiz view reads and writes. */
  class Store {
    var scoreLogs: seq<ScoreLog>
    var guessLogs: seq<GuessLog>
    var users: map<nat, string>

    /** A signed-in user has at most one score row per quiz and day. */
    predicate OnePerDay()
      reads this
    {
      OneRowPerDay(scoreLogs)
    }

    constructor (users: map<nat, string>)
      ensures scoreLogs == [] && guessLogs == [] && this.users == users
      ensures OnePerDay()
    {
      scoreLogs, guessLogs, this.users := [], [], users;
    }

    /** The POST branch of the quiz view up to the commit: grades the answers
        of user `user` (`None` for an anonymous submitter) and applies the
        replay rule. A submission with no score of the same user, quiz and day
        adds its guess rows (signed-in users only) and one score row; a replay
        adds nothing and takes the stored score, maximum and time. */
    method Record(quizId: string, user: Option<nat>, answers: seq<Answer>, timeTaken: Option<int>, today: int)
      returns (score: int, maxPoints: int, time: Option<int>,
               results: seq<bool>, correctAnswers: seq<string>, statuses: seq<Status>)
      modifies this
      ensures users == old(users)
      ensures scoreLogs == old(scoreLogs) +
        ScoreRowsToAdd(old(scoreLogs), user, quizId, today,
                       TotalPoints(Grades(answers)), PlayerMax * |answers|, timeTaken)
      ensures guessLogs == old(guessLogs) + GuessRowsToAdd(old(scoreLogs), user, quizId, today, answers)
      ensures (score, maxPoints, time) ==
        Reported(old(scoreLogs), user, quizId, today,
                 TotalPoints(Grades(answers)), PlayerMax * |answers|, timeTaken)
      ensures results == Outcomes(Grades(answers)) && statuses == Statuses(Grades(answers))
      ensures correctAnswers == Reveals(answers)
      ensures old(OnePerDay()) ==> OnePerDay()
    {
      var existing := FindToday(scoreLogs, user, quizId, today);
      var logFor := if existing.None? then user else None;
      var graded, rows;
      graded, maxPoints, results, correctAnswers, statuses, rows := GradeQuiz(answers, logFor);
      score, time := graded, timeTaken;
      guessLogs := guessLogs + rows;
      if existing.None? {
        var row := ScoreLog(quizId, user, score, maxPoints, timeTaken, today);
        if OnePerDay() {
          AddKeepsOnePerDay(scoreLogs, row);
        }
        scoreLogs := scoreLogs + [row];
      } else {
        score, maxPoints, time := existing.value.score, existing.value.maxPoints, existing.value.timeTaken;
      }
    }

    /** The result page after the commit: the streak of a signed-in user, the
        percentile of the reported score among all scores of the quiz, the
        leaderboard, whether it is shown, and the message tier. */
    method Summarise(quizId: string, user: Option<nat>, score: int, maxPoints: int, time: Option<int>,
                     results: seq<bool>, correctAnswers: seq<string>, statuses: seq<Status>)
      returns (out: Outcome)
      ensures (out.score, out.maxPoints, out.timeTaken) == (score, maxPoints, time)
      ensures (out.results, out.correctAnswers, out.statuses) == (results, correctAnswers, statuses)
      ensures out.streak == if user.Some? then StreakOf(UserDays(scoreLogs, user.value)) else 0
      ensures out.percentile == Percentile(QuizScores(scoreLogs, quizId), score)
      ensures out.leaderboard == Leaderboard(scoreLogs, users, quizId, BoardSize)
      ensures out.showLeaderboard <==> |out.leaderboard| > 0 || user.None?
      ensures out.tier == PerformanceTier(score, maxPoints)
      ensures out.message == PerformanceText(out.tier)
    {
      var streak := 0;
      if user.Some? {
        streak := Streak(UserDays(scoreLogs, user.value));
      }
      var percentile := Percentile(QuizScores(scoreLogs, quizId), score);
      var board := Leaderboard(scoreLogs, users, quizId, BoardSize);
      var tier := PerformanceTier(score, maxPoints);
      out := Outcome(score, maxPoints, time, results, correctAnswers, statuses, streak, percentile,
                     board, |board| > 0 || user.None?, tier, PerformanceText(tier));
    }

    /** The whole POST branch of the quiz view: the players of the quiz record
        after the `normalise_usc` loop, their answers read from the form, then
        `Record` and `Summarise` on the new tables. */
    method Submit(quizId: string, user: Option<nat>, players: seq<Player>, confs: map<string, string>,
                  form: map<string, string>, timeTaken: Option<int>, today: int)
      returns (out: Outcome)
      modifies this
      ensures var answers := SubmittedAnswers(players, confs, form);
        && users == old(users)
        && scoreLogs == old(scoreLogs) +
             ScoreRowsToAdd(old(scoreLogs), user, quizId, today,
                            TotalPoints(Grades(answers)), PlayerMax * |answers|, timeTaken)
        && guessLogs == old(guessLogs) + GuessRowsToAdd(old(scoreLogs), user, quizId, today, answers)
        && (out.score, out.maxPoints, out.timeTaken) ==
             Reported(old(scoreLogs), user, quizId, today,
                      TotalPoints(Grades(answers)), PlayerMax * |answers|, timeTaken)
        && out.results == Outcomes(Grades(answers)) && out.statuses == Statuses(Grades(answers))
        && out.correctAnswers == Reveals(answers)
      ensures out.streak == if user.Some? then StreakOf(UserDays(scoreLogs, user.value)) else 0
      ensures out.percentile == Percentile(QuizScores(scoreLogs, quizId), out.score)
      ensures out.leaderboard == Leaderboard(scoreLogs, users, quizId, BoardSize)
      ensures out.showLeaderboard <==> |out.leaderboard| > 0 || user.None?
      ensures out.tier == PerformanceTier(out.score, out.maxPoints)
      ensures out.message == PerformanceText(out.tier)
      ensures old(OnePerDay()) ==> OnePerDay()
    {
      var answers := SubmittedAnswers(players, confs, form);
      var score, maxPoints, time, results, correctAnswers, statuses := Record(quizId, user, answers, timeTaken, today);
      out := Summarise(quizId, user, score, maxPoints, time, results, correctAnswers, statuses);
    }
  }

  /** The answers a submission grades: one per player of the quiz record, in
      order, for the player as `normalise_usc` leaves it, with the guess and
      hint flag read from the form. */
  function SubmittedAnswers(players: seq<Player>, confs: map<string, string>, form: map<string, string>): (answers: seq<Answer>)
    ensures |answers| == |players|
    ensures forall i :: 0 <= i < |players| ==> answers[i].player == UscNormalised(players[i], confs)
  {
    FormAnswers(NormalisedPlayers(players, confs), form)
  }

  /** No two rows of a signed-in user share a quiz and a day. */
  predicate OneRowPerDay(logs: seq<ScoreLog>)
  {
    forall i, j :: 0 <= i < j < |logs| && logs[i].userId.Some? ==>
      !(logs[i].userId == logs[j].userId && logs[i].quizId == logs[j].quizId && logs[i].day == logs[j].day)
  }

  /** Adding a row that `FindToday` did not find keeps one row per user, quiz and day. */
  lemma AddKeepsOnePerDay(logs: seq<ScoreLog>, row: ScoreLog)
    requires OneRowPerDay(logs)
    requires FindToday(logs, row.userId, row.quizId, row.day).None?
    ensures OneRowPerDay(logs + [row])
  {
    var logs' := logs + [row];
    forall i, j | 0 <= i < j < |logs'| && logs'[i].userId.Some?
      ensures !(logs'[i].userId == logs'[j].userId && logs'[i].quizId == logs'[j].quizId && logs'[i].day == logs'[j].day)
    {
      if j == |logs| {
        assert logs'[i] == logs[i] && logs[i] in logs;
      } else {
        assert logs'[i] == logs[i] && logs'[j] == logs[j];
      }
    }
  }
}
