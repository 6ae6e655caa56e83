/**
  What the quiz pages compute from the logs already stored (app/main/routes.py):
  the day streak of a user, the percentile of a score among all scores of the
  quiz, the leaderboard of a quiz and the accuracy of a player across all
  guesses. The logs are given as sequences of rows; every date is a day number.
 */
module History {
  import opened Optional
  import opened Records

  // ---------------------------------------------------------------------------
  // Day streak

  /** The rest of the streak walk once the walk stands at day `prev`: an entry
      on `prev` itself is skipped, an entry one day earlier extends the streak
      and moves the walk to that day, and anything else ends the walk. */
  function StreakFrom(prev: int, rest: seq<int>): nat
    decreases |rest|
  {
    if rest == [] then 0
    else if rest[0] == prev then StreakFrom(prev, rest[1..])
    else if prev - rest[0] == 1 then 1 + StreakFrom(rest[0], rest[1..])
    else 0
  }

  /** The streak of a history given newest first: no history gives 0, and
      otherwise the newest day counts 1 and the walk starts from it. */
  function StreakOf(days: seq<int>): (n: nat)
    ensures days == [] <==> n == 0
  {
    if days == [] then 0 else 1 + StreakFrom(days[0], days[1..])
  }

  /** The streak loop of the quiz and profile views over the dates of a user's
      score rows, newest first. */
  method Streak(days: seq<int>) returns (streak: nat)
    ensures streak == StreakOf(days)
  {
    streak := 0;
    if days != [] {
      streak := 1;
      var prev := days[0];
      var i := 1;
      while i < |days|
        invariant 1 <= i <= |days|
        invariant StreakOf(days) == streak + StreakFrom(prev, days[i..])
      {
        var d := days[i];
        assert days[i..][1..] == days[i + 1..];
        if d == prev {
          i := i + 1;
          continue;
        }
        if prev - d == 1 {
          streak := streak + 1;
          prev := d;
        } else {
          break;
        }
        i := i + 1;
      }
    }
  }

  /** The days of `s` strictly before `prev`. */
  function DaysBefore(s: seq<int>, prev: int): set<int>
  {
    set d | d in s && d < prev
  }

  lemma {:induction false} StreakFromBound(prev: int, rest: seq<int>)
    ensures StreakFrom(prev, rest) <= |DaysBefore(rest, prev)|
    decreases |rest|
  {
    if rest != [] {
      var tail := rest[1..];
      assert forall d :: d in tail ==> d in rest;
      if rest[0] == prev {
        StreakFromBound(prev, tail);
        SubsetCard(DaysBefore(tail, prev), DaysBefore(rest, prev));
      } else if prev - rest[0] == 1 {
        StreakFromBound(rest[0], tail);
        assert DaysBefore(tail, rest[0]) + {rest[0]} <= DaysBefore(rest, prev);
        SubsetCard(DaysBefore(tail, rest[0]) + {rest[0]}, DaysBefore(rest, prev));
      }
    }
  }

  lemma {:induction false} SubsetCard(a: set<int>, b: set<int>)
    requires a <= b
    ensures |a| <= |b|
  {
    assert b == a + (b - a);
  }

  /** The streak never exceeds the number of distinct days played. */
  lemma StreakAtMostDistinctDays(days: seq<int>)
    ensures StreakOf(days) <= |set d | d in days|
  {
    if days != [] {
      StreakFromBound(days[0], days[1..]);
      var all := set d | d in days;
      assert DaysBefore(days[1..], days[0]) + {days[0]} <= all;
      SubsetCard(DaysBefore(days[1..], days[0]) + {days[0]}, all);
    }
  }

  /** Two plays on the same day count once and a missed day ends the streak. */
  lemma StreakExample(d: int)
    ensures StreakOf([d, d - 1, d - 1, d - 3]) == 2
  {
    assert [d - 1, d - 3][1..] == [d - 3];
    assert [d - 1, d - 1, d - 3][1..] == [d - 1, d - 3];
    assert [d, d - 1, d - 1, d - 3][1..] == [d - 1, d - 1, d - 3];
    assert StreakFrom(d - 1, [d - 3]) == 0;
    assert StreakFrom(d - 1, [d - 1, d - 3]) == 0;
    assert StreakFrom(d, [d - 1, d - 1, d - 3]) == 1;
  }

  /** The days are listed newest first. */
  predicate NewestFirst(days: seq<int>)
  {
    forall i, j :: 0 <= i < j < |days| ==> days[j] <= days[i]
  }

  lemma {:induction false} StreakFromRun(prev: int, rest: seq<int>)
    requires NewestFirst(rest)
    requires forall i :: 0 <= i < |rest| ==> rest[i] <= prev
    ensures forall d :: prev - StreakFrom(prev, rest) <= d < prev ==> d in rest
    ensures prev - StreakFrom(prev, rest) - 1 !in rest
    decreases |rest|
  {
    if rest != [] {
      var tail := rest[1..];
      assert forall d :: d in tail ==> d in rest;
      assert forall i :: 0 <= i < |tail| ==> tail[i] <= rest[0] by {
        forall i | 0 <= i < |tail| ensures tail[i] <= rest[0] {
          assert tail[i] == rest[i + 1];
        }
      }
      if rest[0] == prev {
        StreakFromRun(prev, tail);
      } else if prev - rest[0] == 1 {
        StreakFromRun(rest[0], tail);
      } else {
        assert forall d :: d in rest ==> d <= rest[0] by {
          forall d | d in rest ensures d <= rest[0] {
            var i :| 0 <= i < |rest| && rest[i] == d;
            assert i == 0 || rest[i] <= rest[0];
          }
        }
      }
    }
  }

  /** For a history listed newest first, the streak is the length of the run of
      consecutive days ending at the newest one: every day of the run was
      played, and the day before the run was not. */
  lemma StreakIsRun(days: seq<int>)
    requires days != []
    requires NewestFirst(days)
    ensures forall d :: days[0] - StreakOf(days) < d <= days[0] ==> d in days
    ensures days[0] - StreakOf(days) !in days
  {
    var tail := days[1..];
    assert forall i :: 0 <= i < |tail| ==> tail[i] <= days[0] by {
      forall i | 0 <= i < |tail| ensures tail[i] <= days[0] {
        assert tail[i] == days[i + 1];
      }
    }
    StreakFromRun(days[0], tail);
    assert forall d :: d in tail ==> d in days;
    assert days == [days[0]] + tail;
  }

  // ---------------------------------------------------------------------------
  // Percentile

  /** The number of scores at most `score` (`sum(s <= score for s in scores)`). */
  function CountAtMost(scores: seq<int>, score: int): (c: nat)
    ensures c <= |scores|
  {
    if scores == [] then 0
    else CountAtMost(scores[..|scores| - 1], score) + (if scores[|scores| - 1] <= score then 1 else 0)
  }

  lemma {:induction false} CountAtMostMonotone(scores: seq<int>, s1: int, s2: int)
    requires s1 <= s2
    ensures CountAtMost(scores, s1) <= CountAtMost(scores, s2)
  {
    if scores != [] {
      CountAtMostMonotone(scores[..|scores| - 1], s1, s2);
    }
  }

  lemma MulSucc(q: int, d: int)
    ensures (q + 1) * d == q * d + d
  {
  }

  /** Python's `round(num / den)` for a non-negative fraction: the nearest
      integer, and the even one of the two when the fraction lies halfway. */
  function RoundHalfEven(num: nat, den: nat): nat
    requires den > 0
  {
    var q, rem := num / den, num % den;
    if 2 * rem > den || (2 * rem == den && q % 2 == 1) then q + 1 else q
  }

  /** The rounded value is within half of `den` of `num`, and on a tie it is even. */
  lemma RoundHalfEvenNearest(num: nat, den: nat)
    requires den > 0
    ensures var r := RoundHalfEven(num, den);
      && 2 * (num - r * den) <= den && 2 * (r * den - num) <= den
      && (2 * (num - r * den) == den || 2 * (r * den - num) == den ==> r % 2 == 0)
  {
    var q, rem := num / den, num % den;
    var m := q * den;
    assert num == m + rem;
    MulSucc(q, den);
  }

  lemma MulMonotone(a: nat, b: nat, d: nat)
    requires a <= b
    ensures a * d <= b * d
  {
  }

  lemma DivMonotone(n1: nat, n2: nat, den: nat)
    requires den > 0 && n1 <= n2
    ensures n1 / den <= n2 / den
    ensures n1 / den == n2 / den ==> n1 % den <= n2 % den
  {
    var q1, q2 := n1 / den, n2 / den;
    if q1 > q2 {
      MulMonotone(q2 + 1, q1, den);
      MulSucc(q2, den);
    }
  }

  lemma RoundHalfEvenMonotone(n1: nat, n2: nat, den: nat)
    requires den > 0 && n1 <= n2
    ensures RoundHalfEven(n1, den) <= RoundHalfEven(n2, den)
  {
    DivMonotone(n1, n2, den);
  }

  lemma DivExact(k: nat, den: nat)
    requires den > 0
    ensures (k * den) / den == k && (k * den) % den == 0
  {
    var n := k * den;
    var q, r := n / den, n % den;
    if q < k {
      MulMonotone(q + 1, k, den);
      MulSucc(q, den);
    }
  }

  lemma RoundHalfEvenAtMost(num: nat, den: nat, k: nat)
    requires den > 0 && num <= k * den
    ensures RoundHalfEven(num, den) <= k
  {
    RoundHalfEvenMonotone(num, k * den, den);
    DivExact(k, den);
  }

  /** The share of scores at or below `score`, in whole percent; an empty
      population gives 0. */
  function Percentile(scores: seq<int>, score: int): (p: nat)
    ensures scores == [] ==> p == 0
    ensures p <= 100
  {
    if scores == [] then 0
    else
      RoundHalfEvenAtMost(100 * CountAtMost(scores, score), |scores|, 100);
      RoundHalfEven(100 * CountAtMost(scores, score), |scores|)
  }

  /** A better score never has a lower percentile. */
  lemma PercentileMonotone(scores: seq<int>, s1: int, s2: int)
    requires s1 <= s2
    ensures Percentile(scores, s1) <= Percentile(scores, s2)
  {
    if scores != [] {
      CountAtMostMonotone(scores, s1, s2);
      RoundHalfEvenMonotone(100 * CountAtMost(scores, s1), 100 * CountAtMost(scores, s2), |scores|);
    }
  }

  /** The best score of the population is at the 100th percentile. */
  lemma {:induction false} CountAtMostAll(scores: seq<int>, score: int)
    requires forall i :: 0 <= i < |scores| ==> scores[i] <= score
    ensures CountAtMost(scores, score) == |scores|
  {
    if scores != [] {
      CountAtMostAll(scores[..|scores| - 1], score);
    }
  }

  lemma PercentileOfBest(scores: seq<int>, score: int)
    requires scores != []
    requires forall i :: 0 <= i < |scores| ==> scores[i] <= score
    ensures Percentile(scores, score) == 100
  {
    CountAtMostAll(scores, score);
    DivExact(100, |scores|);
  }

  /** The rank counts the score itself and every tie: 12 among 4, 8, 12, 16, 20
      (in quarter-points) has rank 3 of 5, the 60th percentile; a halfway share
      rounds to the even neighbour, so rank 1 of 8 gives 12, not 13. */
  lemma PercentileExamples()
    ensures Percentile([4, 8, 12, 16, 20], 12) == 60
    ensures Percentile([1, 2, 3, 4, 5, 6, 7, 8], 1) == 12
  {
    assert [4, 8, 12, 16, 20][..4] == [4, 8, 12, 16];
    assert [4, 8, 12, 16][..3] == [4, 8, 12];
    assert [4, 8, 12][..2] == [4, 8];
    assert [4, 8][..1] == [4];
    assert [4][..0] == [];
    assert CountAtMost([4, 8, 12], 12) == 3;
    assert CountAtMost([4, 8, 12, 16, 20], 12) == 3;
    var b := [1, 2, 3, 4, 5, 6, 7, 8];
    assert forall k :: 1 <= k <= 8 ==> b[..k][..k - 1] == b[..k - 1];
    assert CountAtMost(b[..1], 1) == 1;
    assert CountAtMost(b[..2], 1) == 1;
    assert CountAtMost(b[..3], 1) == 1;
    assert CountAtMost(b[..4], 1) == 1;
    assert CountAtMost(b[..5], 1) == 1;
    assert CountAtMost(b[..6], 1) == 1;
    assert CountAtMost(b[..7], 1) == 1;
    assert b[..8] == b;
  }

  // ---------------------------------------------------------------------------
  // Leaderboard

  /** One leaderboard entry: the user's name and the row's score, maximum and time. */
  datatype BoardRow = BoardRow(username: string, score: int, maxPoints: int, timeTaken: Option<int>)

  /** The inner join of the score rows of quiz `quizId` with the users table:
      rows without a user, or whose user is unknown, drop out. */
  function JoinedRows(logs: seq<ScoreLog>, users: map<nat, string>, quizId: string): (rows: seq<BoardRow>)
    ensures |rows| <= |logs|
  {
    if logs == [] then []
    else
      var l := logs[|logs| - 1];
      var init := JoinedRows(logs[..|logs| - 1], users, quizId);
      if l.quizId == quizId && l.userId.Some? && l.userId.value in users then
        init + [BoardRow(users[l.userId.value], l.score, l.maxPoints, l.timeTaken)]
      else init
  }

  /** Every joined row is a row of the quiz, with the name of its user. */
  lemma {:induction false} JoinedRowsFromLogs(logs: seq<ScoreLog>, users: map<nat, string>, quizId: string, r: BoardRow)
    requires r in JoinedRows(logs, users, quizId)
    ensures exists l ::
      && l in logs && l.quizId == quizId && l.userId.Some? && l.userId.value in users
      && r == BoardRow(users[l.userId.value], l.score, l.maxPoints, l.timeTaken)
  {
    var init := logs[..|logs| - 1];
    var l := logs[|logs| - 1];
    if r in JoinedRows(init, users, quizId) {
      JoinedRowsFromLogs(init, users, quizId, r);
      var l' :| l' in init && l'.quizId == quizId && l'.userId.Some? && l'.userId.value in users
        && r == BoardRow(users[l'.userId.value], l'.score, l'.maxPoints, l'.timeTaken);
      assert l' in logs;
    } else {
      assert l in logs;
    }
  }

  /** Every score row of the quiz whose user is known is joined, with the
      user's name. */
  lemma {:induction false} JoinedRowsComplete(logs: seq<ScoreLog>, users: map<nat, string>, quizId: string, l: ScoreLog)
    requires l in logs && l.quizId == quizId && l.userId.Some? && l.userId.value in users
    ensures BoardRow(users[l.userId.value], l.score, l.maxPoints, l.timeTaken) in JoinedRows(logs, users, quizId)
  {
    var init := logs[..|logs| - 1];
    if l != logs[|logs| - 1] {
      assert logs == init + [logs[|logs| - 1]];
      assert l in init;
      JoinedRowsComplete(init, users, quizId, l);
    }
  }

  /** `time_taken ASC` as the database orders it: a missing time comes first. */
  predicate TimeNoLater(a: Option<int>, b: Option<int>)
  {
    match (a, b)
    case (None, _) => true
    case (Some(_), None) => false
    case (Some(x), Some(y)) => x <= y
  }

  /** `a` may be listed before `b`: a higher score, or the same score and a time no later. */
  predicate RanksAbove(a: BoardRow, b: BoardRow)
  {
    a.score > b.score || (a.score == b.score && TimeNoLater(a.timeTaken, b.timeTaken))
  }

  /** Ordered by score descending, then time ascending. */
  predicate Ranked(rows: seq<BoardRow>)
  {
    forall i, j :: 0 <= i < j < |rows| ==> RanksAbove(rows[i], rows[j])
  }

  /** Places `r` after every row that ranks at least as high. */
  function Insert(r: BoardRow, rows: seq<BoardRow>): (out: seq<BoardRow>)
    ensures |out| == |rows| + 1
  {
    if rows == [] then [r]
    else if RanksAbove(rows[0], r) then [rows[0]] + Insert(r, rows[1..])
    else [r] + rows
  }

  lemma {:induction false} InsertPermutes(r: BoardRow, rows: seq<BoardRow>)
    ensures multiset(Insert(r, rows)) == multiset(rows) + multiset{r}
  {
    if rows != [] && RanksAbove(rows[0], r) {
      InsertPermutes(r, rows[1..]);
      assert rows == [rows[0]] + rows[1..];
    }
  }

  lemma {:induction false} InsertKeepsRanked(r: BoardRow, rows: seq<BoardRow>)
    requires Ranked(rows)
    ensures Ranked(Insert(r, rows))
  {
    if rows != [] {
      var out := Insert(r, rows);
      if RanksAbove(rows[0], r) {
        var rest := Insert(r, rows[1..]);
        InsertKeepsRanked(r, rows[1..]);
        InsertPermutes(r, rows[1..]);
        forall j | 0 <= j < |rest|
          ensures RanksAbove(rows[0], rest[j])
        {
          assert rest[j] in multiset(rest);
          if rest[j] != r {
            assert rest[j] in multiset(rows[1..]);
            var k :| 0 <= k < |rows[1..]| && rows[1..][k] == rest[j];
            assert rows[k + 1] == rest[j];
          }
        }
        assert out == [rows[0]] + rest;
      } else {
        assert out == [r] + rows;
        forall j | 0 <= j < |rows|
          ensures RanksAbove(r, rows[j])
        {
          assert j == 0 || RanksAbove(rows[0], rows[j]);
        }
      }
    }
  }

  /** The rows ordered by `score DESC, time_taken ASC`, by insertion. */
  function SortRows(rows: seq<BoardRow>): (out: seq<BoardRow>)
    ensures |out| == |rows|
  {
    if rows == [] then [] else Insert(rows[0], SortRows(rows[1..]))
  }

  /** Sorting ranks the rows and keeps exactly the same rows. */
  lemma {:induction false} SortRowsSpec(rows: seq<BoardRow>)
    ensures Ranked(SortRows(rows))
    ensures multiset(SortRows(rows)) == multiset(rows)
  {
    if rows != [] {
      SortRowsSpec(rows[1..]);
      InsertKeepsRanked(rows[0], SortRows(rows[1..]));
      InsertPermutes(rows[0], SortRows(rows[1..]));
      assert rows == [rows[0]] + rows[1..];
    }
  }

  /** `get_leaderboard(quiz_id, limit)`: the joined rows of the quiz, ranked,
      cut to the first `limit`. */
  function Leaderboard(logs: seq<ScoreLog>, users: map<nat, string>, quizId: string, limit: nat): (board: seq<BoardRow>)
    ensures |board| <= limit
  {
    var ranked := SortRows(JoinedRows(logs, users, quizId));
    if |ranked| <= limit then ranked else ranked[..limit]
  }

  /** Cutting a ranked list after `limit` rows leaves off no row that ranks
      strictly above a row kept. */
  lemma CutKeepsBest(ranked: seq<BoardRow>, limit: nat)
    requires Ranked(ranked) && limit < |ranked|
    ensures Ranked(ranked[..limit])
    ensures multiset(ranked[..limit]) <= multiset(ranked)
    ensures forall r :: r in multiset(ranked) - multiset(ranked[..limit]) ==>
      forall i :: 0 <= i < limit ==> RanksAbove(ranked[i], r)
  {
    var board, dropped := ranked[..limit], ranked[limit..];
    assert ranked == board + dropped;
    assert multiset(ranked) == multiset(board) + multiset(dropped);
    forall r | r in multiset(ranked) - multiset(board)
      ensures forall i :: 0 <= i < limit ==> RanksAbove(ranked[i], r)
    {
      assert r in multiset(dropped);
      var j :| 0 <= j < |dropped| && dropped[j] == r;
      assert ranked[limit + j] == r;
    }
  }

  /** The leaderboard holds `limit` rows, or every row when there are fewer; it
      is ranked; its entries are joined rows of the quiz; and no row left off
      ranks strictly above an entry. */
  lemma LeaderboardSpec(logs: seq<ScoreLog>, users: map<nat, string>, quizId: string, limit: nat)
    ensures var all, board := JoinedRows(logs, users, quizId), Leaderboard(logs, users, quizId, limit);
      && |board| == (if |all| < limit then |all| else limit)
      && Ranked(board)
      && multiset(board) <= multiset(all)
      && forall r :: r in multiset(all) - multiset(board) ==>
           forall i :: 0 <= i < |board| ==> RanksAbove(board[i], r)
  {
    var all := JoinedRows(logs, users, quizId);
    var ranked := SortRows(all);
    SortRowsSpec(all);
    if |ranked| > limit {
      CutKeepsBest(ranked, limit);
    }
  }

  /** Every score row of the quiz with a known user is on the leaderboard, or
      ranks no higher than every entry of it. */
  lemma LeaderboardKeepsBest(logs: seq<ScoreLog>, users: map<nat, string>, quizId: string, limit: nat, l: ScoreLog)
    requires l in logs && l.quizId == quizId && l.userId.Some? && l.userId.value in users
    ensures var r, board := BoardRow(users[l.userId.value], l.score, l.maxPoints, l.timeTaken), Leaderboard(logs, users, quizId, limit);
      r in board || forall i :: 0 <= i < |board| ==> RanksAbove(board[i], r)
  {
    var r := BoardRow(users[l.userId.value], l.score, l.maxPoints, l.timeTaken);
    var all, board := JoinedRows(logs, users, quizId), Leaderboard(logs, users, quizId, limit);
    JoinedRowsComplete(logs, users, quizId, l);
    LeaderboardSpec(logs, users, quizId, limit);
    if r !in board {
      assert r in multiset(all) - multiset(board);
    }
  }

  /** Two rows with the best score: the faster one comes first; a lower score
      comes after both, however fast. */
  lemma LeaderboardExample()
    ensures var a, b, c := BoardRow("ann", 20, 20, Some(60)), BoardRow("bob", 20, 20, Some(45)), BoardRow("cy", 16, 20, Some(10));
      SortRows([a, b, c]) == [b, a, c]
  {
    var a, b, c := BoardRow("ann", 20, 20, Some(60)), BoardRow("bob", 20, 20, Some(45)), BoardRow("cy", 16, 20, Some(10));
    assert [a, b, c][1..] == [b, c];
    assert [b, c][1..] == [c];
    assert [c][1..] == [];
    assert SortRows([c]) == [c];
    assert SortRows([b, c]) == Insert(b, [c]) == [b, c];
    assert Insert(a, [c]) == [a, c];
    assert Insert(a, [b, c]) == [b] + Insert(a, [c]);
  }

  /** Rows tied on both score and time come out in reverse input order: the
      row inserted later is listed first. */
  lemma SortRowsTies(x: BoardRow, y: BoardRow)
    requires x.score == y.score && x.timeTaken == y.timeTaken
    ensures SortRows([x, y]) == [y, x]
  {
    assert [x, y][1..] == [y];
    assert [y][1..] == [];
    assert SortRows([y]) == [y];
    assert Insert(x, [y]) == [y] + Insert(x, []);
  }

  // ---------------------------------------------------------------------------
  // Player accuracy

  /** Number of guesses about `player`. */
  function GuessCount(guesses: seq<GuessLog>, player: string): (n: nat)
    ensures n <= |guesses|
  {
    if guesses == [] then 0
    else GuessCount(guesses[..|guesses| - 1], player) + (if guesses[|guesses| - 1].playerName == player then 1 else 0)
  }

  /** Number of correct guesses about `player`. */
  function CorrectCount(guesses: seq<GuessLog>, player: string): (n: nat)
    ensures n <= |guesses|
  {
    if guesses == [] then 0
    else
      var g := guesses[|guesses| - 1];
      CorrectCount(guesses[..|guesses| - 1], player) + (if g.playerName == player && g.isCorrect then 1 else 0)
  }

  lemma {:induction false} CorrectAtMostGuesses(guesses: seq<GuessLog>, player: string)
    ensures CorrectCount(guesses, player) <= GuessCount(guesses, player)
  {
    if guesses != [] {
      CorrectAtMostGuesses(guesses[..|guesses| - 1], player);
    }
  }

  /** Accuracy in percent of all guesses about `player`; a player nobody has
      guessed yet has accuracy 0 rather than a division by zero. */
  function Accuracy(guesses: seq<GuessLog>, player: string): (pct: real)
    ensures GuessCount(guesses, player) == 0 ==> pct == 0.0
    ensures 0.0 <= pct <= 100.0
  {
    var total, correct := GuessCount(guesses, player), CorrectCount(guesses, player);
    CorrectAtMostGuesses(guesses, player);
    if total == 0 then 0.0
    else
      PercentWithin(correct as real, total as real);
      100.0 * (correct as real) / (total as real)
  }

  /** A share of a positive total that is at most the total lies in 0..100 percent. */
  lemma PercentWithin(c: real, t: real)
    requires 0.0 <= c <= t && t > 0.0
    ensures 0.0 <= 100.0 * c / t <= 100.0
  {
    var p := 100.0 * c / t;
    assert p * t == 100.0 * c;
    assert 100.0 * c <= 100.0 * t;
  }

  /** Accuracy is 100 exactly when the player has been guessed and every guess was right. */
  lemma AccuracyFull(guesses: seq<GuessLog>, player: string)
    ensures Accuracy(guesses, player) == 100.0 <==>
      GuessCount(guesses, player) > 0 && CorrectCount(guesses, player) == GuessCount(guesses, player)
  {
    var total, correct := GuessCount(guesses, player), CorrectCount(guesses, player);
    if total > 0 {
      PercentFull(correct as real, total as real);
    }
  }

  /** A share of `t` is the whole of it exactly when it equals `t`. */
  lemma PercentFull(c: real, t: real)
    requires t > 0.0
    ensures 100.0 * c / t == 100.0 <==> c == t
  {
    var p := 100.0 * c / t;
    assert p * t == 100.0 * c;
    if p == 100.0 {
      assert 100.0 * t == 100.0 * c;
    }
  }
}
