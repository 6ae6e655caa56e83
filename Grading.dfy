/**
  Grading of one quiz submission (app/main/routes.py): the per-player scorer,
  the loop that adds the players up, the "Southern California" fix-up applied
  to every player when the quiz record is loaded, and the tiered message
  shown with the score.

  The submitted form is a map from field name to text. The guess for a player
  is the field named after the player; the hint flag for the player at
  position `i` is the field `hint_used_<i>`, and it is set when its text is "1".
 */
module Grading {
  import opened Optional
  import opened Text
  import opened Records

  /** 1.0 point: the school named exactly, or a college answer without the hint. */
  const FullPoints: nat := 4
  /** 0.75 points: a college answer after using the hint, or the country of a non-college player. */
  const ReducedPoints: nat := 3
  /** What every player adds to `max_points`, whatever the branch. */
  const PlayerMax: nat := 4

  /** The per-player line of the share message. */
  datatype Status = Correct | UsedHint | Missed

  datatype Grade = Grade(points: nat, correct: bool, status: Status)

  /** "Used Hint" only for a correct answer given after the hint, "Missed" exactly when wrong. */
  function StatusOf(correct: bool, usedHint: bool): (s: Status)
    ensures s == Missed <==> !correct
    ensures s == UsedHint <==> correct && usedHint
    ensures s == Correct <==> correct && !usedHint
  {
    if correct && usedHint then UsedHint else if correct then Correct else Missed
  }

  /** The view's answer check: equality after lower-casing both sides. */
  predicate SameIgnoringCase(a: string, b: string) {
    Lower(a) == Lower(b)
  }

  /** Scores one (already stripped) guess. College players are matched on the
      school only and lose a quarter-point for the hint; everybody else is
      matched on the school first and then on the country, and the hint costs
      nothing. */
  function GradeOne(p: Player, guess: string, usedHint: bool): (g: Grade)
    ensures g.points <= PlayerMax
    ensures g.correct <==> g.points > 0
    ensures g.status == StatusOf(g.correct, usedHint)
    ensures p.schoolType == "College" ==> (g.correct <==> SameIgnoringCase(guess, p.school))
    ensures p.schoolType != "College" ==>
      (g.correct <==> SameIgnoringCase(guess, p.school) || SameIgnoringCase(guess, p.country))
  {
    var answer := Lower(guess);
    if p.schoolType == "College" then
      if answer == Lower(p.school) then
        Grade(if usedHint then ReducedPoints else FullPoints, true, StatusOf(true, usedHint))
      else
        Grade(0, false, StatusOf(false, usedHint))
    else
      if answer == Lower(p.school) then Grade(FullPoints, true, StatusOf(true, usedHint))
      else if answer == Lower(p.country) then Grade(ReducedPoints, true, StatusOf(true, usedHint))
      else Grade(0, false, StatusOf(false, usedHint))
  }

  /** College player: 1.0 for the school without the hint, 0.75 with it, 0 otherwise. */
  lemma CollegePoints(p: Player, guess: string, usedHint: bool)
    requires p.schoolType == "College"
    ensures GradeOne(p, guess, usedHint).points ==
      if !SameIgnoringCase(guess, p.school) then 0
      else if usedHint then ReducedPoints else FullPoints
  {
  }

  /** Non-college player: the school is checked before the country, and the hint
      never changes the points. */
  lemma NonCollegePoints(p: Player, guess: string, usedHint: bool)
    requires p.schoolType != "College"
    ensures SameIgnoringCase(guess, p.school) ==> GradeOne(p, guess, usedHint).points == FullPoints
    ensures !SameIgnoringCase(guess, p.school) && SameIgnoringCase(guess, p.country) ==>
      GradeOne(p, guess, usedHint).points == ReducedPoints
    ensures GradeOne(p, guess, usedHint).points == GradeOne(p, guess, !usedHint).points
  {
  }

  /** Using the hint never earns more, and costs exactly a quarter-point on a
      correct college answer and nothing anywhere else. */
  lemma HintCost(p: Player, guess: string)
    ensures GradeOne(p, guess, true).correct == GradeOne(p, guess, false).correct
    ensures GradeOne(p, guess, false).points - GradeOne(p, guess, true).points ==
      if p.schoolType == "College" && GradeOne(p, guess, false).correct then 1 else 0
  {
  }

  /** The comparison ignores case: lower-casing the guess first changes nothing. */
  lemma {:induction false} GradeIgnoresCase(p: Player, guess: string, usedHint: bool)
    ensures GradeOne(p, Lower(guess), usedHint) == GradeOne(p, guess, usedHint)
  {
    LowerIdempotent(guess);
  }

  /** What the form holds for one player: the text of the field named after
      the player ("" when absent) with surrounding white space stripped, and
      the player's hint flag. */
  datatype Answer = Answer(player: Player, guess: string, usedHint: bool)

  function HintKey(idx: nat): string
  {
    "hint_used_" + NatToString(idx)
  }

  /** The hint flag of the player at position `idx`: its field reads "1" (a missing field reads "0"). */
  function HintUsed(form: map<string, string>, idx: nat): (used: bool)
    ensures used <==> HintKey(idx) in form && form[HintKey(idx)] == "1"
  {
    (if HintKey(idx) in form then form[HintKey(idx)] else "0") == "1"
  }

  /** Every position has a field of its own: two players never share a hint flag. */
  lemma HintKeysDistinct(i: nat, j: nat)
    requires i != j
    ensures HintKey(i) != HintKey(j)
  {
    var prefix := "hint_used_";
    if HintKey(i) == HintKey(j) {
      assert HintKey(i)[|prefix|..] == NatToString(i);
      assert HintKey(j)[|prefix|..] == NatToString(j);
      ParseNatToString(i);
      ParseNatToString(j);
    }
  }

  /** Reads the form for every player, in player order. Two players with the
      same name read the same guess field. */
  function FormAnswers(players: seq<Player>, form: map<string, string>): (answers: seq<Answer>)
    ensures |answers| == |players|
    ensures forall i :: 0 <= i < |players| ==> answers[i].player == players[i]
    ensures forall i :: 0 <= i < |players| ==>
      && answers[i].guess == Strip(if players[i].name in form then form[players[i].name] else "")
      && answers[i].usedHint == HintUsed(form, i)
  {
    seq(|players|, i requires 0 <= i < |players| =>
      Answer(players[i], Strip(if players[i].name in form then form[players[i].name] else ""), HintUsed(form, i)))
  }

  function GradeAnswer(a: Answer): Grade
  {
    GradeOne(a.player, a.guess, a.usedHint)
  }

  /** The grade of every answer, in order. */
  function Grades(answers: seq<Answer>): (gs: seq<Grade>)
    ensures |gs| == |answers|
  {
    if answers == [] then [] else Grades(answers[..|answers| - 1]) + [GradeAnswer(answers[|answers| - 1])]
  }

  /** The sum of the points of `gs`. */
  function TotalPoints(gs: seq<Grade>): nat
  {
    if gs == [] then 0 else TotalPoints(gs[..|gs| - 1]) + gs[|gs| - 1].points
  }

  /** A score never exceeds `max_points`, the per-player maximum times the number of players. */
  lemma {:induction false} ScoreBound(answers: seq<Answer>)
    ensures TotalPoints(Grades(answers)) <= PlayerMax * |answers|
  {
    if answers != [] {
      var init := answers[..|answers| - 1];
      ScoreBound(init);
      assert Grades(answers)[..|answers| - 1] == Grades(init);
    }
  }

  /** The answer revealed for a player after grading. */
  function Reveal(p: Player): string
  {
    if p.schoolType == "College" then "I played for " + p.school
    else "I am from " + p.country + " and played for " + p.school
  }

  /** The correctness flag of each grade, in order (the ticks and crosses shown). */
  function Outcomes(gs: seq<Grade>): (bs: seq<bool>)
    ensures |bs| == |gs|
  {
    if gs == [] then [] else Outcomes(gs[..|gs| - 1]) + [gs[|gs| - 1].correct]
  }

  /** The share status of each grade, in order. */
  function Statuses(gs: seq<Grade>): (ss: seq<Status>)
    ensures |ss| == |gs|
  {
    if gs == [] then [] else Statuses(gs[..|gs| - 1]) + [gs[|gs| - 1].status]
  }

  /** The revealed answer for each answered player, in order. */
  function Reveals(answers: seq<Answer>): (ts: seq<string>)
    ensures |ts| == |answers|
  {
    if answers == [] then [] else Reveals(answers[..|answers| - 1]) + [Reveal(answers[|answers| - 1].player)]
  }

  /** The guess row written for user `uid` for one answer. */
  function GuessRow(uid: nat, a: Answer): GuessLog
  {
    GuessLog(uid, a.player.name, a.player.school, a.guess, GradeAnswer(a).correct, a.usedHint)
  }

  /** The guess rows written for user `uid`: one per answer, in order. */
  function GuessRows(uid: nat, answers: seq<Answer>): (rows: seq<GuessLog>)
    ensures |rows| == |answers|
  {
    if answers == [] then [] else GuessRows(uid, answers[..|answers| - 1]) + [GuessRow(uid, answers[|answers| - 1])]
  }

  /** What grading one more answer adds to each accumulated sequence. */
  lemma GradingStep(answers: seq<Answer>, k: nat)
    requires k < |answers|
    ensures var gs, g := Grades(answers[..k]), GradeAnswer(answers[k]);
      && Grades(answers[..k + 1]) == gs + [g]
      && TotalPoints(gs + [g]) == TotalPoints(gs) + g.points
      && Outcomes(gs + [g]) == Outcomes(gs) + [g.correct]
      && Statuses(gs + [g]) == Statuses(gs) + [g.status]
      && Reveals(answers[..k + 1]) == Reveals(answers[..k]) + [Reveal(answers[k].player)]
  {
    var gs, g := Grades(answers[..k]), GradeAnswer(answers[k]);
    assert (gs + [g])[..k] == gs;
    assert answers[..k + 1][..k] == answers[..k];
  }

  lemma GuessRowsStep(uid: nat, answers: seq<Answer>, k: nat)
    requires k < |answers|
    ensures GuessRows(uid, answers[..k + 1]) == GuessRows(uid, answers[..k]) + [GuessRow(uid, answers[k])]
  {
    assert answers[..k + 1][..k] == answers[..k];
  }

  /** Position `i` of each answers-indexed sequence describes answer `i`. */
  lemma {:induction false} AnswerAt(uid: nat, answers: seq<Answer>, i: nat)
    requires i < |answers|
    ensures Grades(answers)[i] == GradeAnswer(answers[i])
    ensures Reveals(answers)[i] == Reveal(answers[i].player)
    ensures GuessRows(uid, answers)[i] == GuessRow(uid, answers[i])
  {
    if i < |answers| - 1 {
      AnswerAt(uid, answers[..|answers| - 1], i);
    }
  }

  /** Position `i` of the outcomes and statuses describes grade `i`. */
  lemma {:induction false} GradeAt(gs: seq<Grade>, i: nat)
    requires i < |gs|
    ensures Outcomes(gs)[i] == gs[i].correct
    ensures Statuses(gs)[i] == gs[i].status
  {
    if i < |gs| - 1 {
      GradeAt(gs[..|gs| - 1], i);
    }
  }

  /** Points summed over grades that are each at most the full point reach
      the maximum exactly when every grade is the full point. */
  lemma {:induction false} FullTotalIffAllFull(gs: seq<Grade>)
    requires forall i :: 0 <= i < |gs| ==> gs[i].points <= FullPoints
    ensures TotalPoints(gs) == FullPoints * |gs| <==> forall i :: 0 <= i < |gs| ==> gs[i].points == FullPoints
  {
    if gs != [] {
      var init := gs[..|gs| - 1];
      FullTotalIffAllFull(init);
      TotalPointsBound(init);
    }
  }

  lemma {:induction false} TotalPointsBound(gs: seq<Grade>)
    requires forall i :: 0 <= i < |gs| ==> gs[i].points <= FullPoints
    ensures TotalPoints(gs) <= FullPoints * |gs|
  {
    if gs != [] {
      TotalPointsBound(gs[..|gs| - 1]);
    }
  }

  /** A perfect game: the score reaches `max_points` exactly when every answer
      earns the full point, so a single hint on a correct college answer or a
      single country answer rules it out. */
  lemma PerfectIffAllFull(answers: seq<Answer>)
    ensures TotalPoints(Grades(answers)) == PlayerMax * |answers| <==>
      forall i :: 0 <= i < |answers| ==> GradeAnswer(answers[i]).points == FullPoints
  {
    var gs := Grades(answers);
    forall i | 0 <= i < |answers|
      ensures gs[i] == GradeAnswer(answers[i])
    {
      AnswerAt(0, answers, i);
    }
    FullTotalIffAllFull(gs);
  }

  /** The body of the grading loop for one player: sets `pts` and `is_correct`
      the way the view does, and picks the answer text to reveal. */
  method GradePlayer(p: Player, guess: string, usedHint: bool)
    returns (pts: nat, isCorrect: bool, answer: string)
    ensures GradeOne(p, guess, usedHint) == Grade(pts, isCorrect, StatusOf(isCorrect, usedHint))
    ensures answer == Reveal(p)
  {
    isCorrect := false;
    pts := 0;
    if p.schoolType == "College" {
      if Lower(guess) == Lower(p.school) {
        pts := if usedHint then ReducedPoints else FullPoints;
        isCorrect := true;
      }
      answer := "I played for " + p.school;
    } else {
      if Lower(guess) == Lower(p.school) {
        pts := FullPoints;
        isCorrect := true;
      } else if Lower(guess) == Lower(p.country) {
        pts := ReducedPoints;
        isCorrect := true;
      }
      answer := "I am from " + p.country + " and played for " + p.school;
    }
  }

  /** The grading loop of the quiz view. It grades every answer in order,
      accumulating the score and `max_points` (every player adds 1.0 on either
      branch), and collects the per-player outcome, revealed answer and share
      status. When `logFor` names a user (a signed-in user with no score logged
      today), it also collects one guess row per player. */
  method GradeQuiz(answers: seq<Answer>, logFor: Option<nat>)
    returns (score: nat, maxPoints: nat, results: seq<bool>, correctAnswers: seq<string>,
             statuses: seq<Status>, guessRows: seq<GuessLog>)
    ensures maxPoints == PlayerMax * |answers|
    ensures score == TotalPoints(Grades(answers))
    ensures score <= maxPoints
    ensures results == Outcomes(Grades(answers))
    ensures statuses == Statuses(Grades(answers))
    ensures correctAnswers == Reveals(answers)
    ensures guessRows == if logFor.Some? then GuessRows(logFor.value, answers) else []
  {
    score, maxPoints := 0, 0;
    results, correctAnswers, statuses, guessRows := [], [], [], [];
    ghost var gs: seq<Grade> := [];
    for idx := 0 to |answers|
      invariant gs == Grades(answers[..idx])
      invariant maxPoints == PlayerMax * idx
      invariant score == TotalPoints(gs)
      invariant results == Outcomes(gs)
      invariant statuses == Statuses(gs)
      invariant correctAnswers == Reveals(answers[..idx])
      invariant guessRows == if logFor.Some? then GuessRows(logFor.value, answers[..idx]) else []
    {
      var a := answers[idx];
      var pts, isCorrect, answer := GradePlayer(a.player, a.guess, a.usedHint);
      GradingStep(answers, idx);
      gs := gs + [GradeAnswer(a)];
      maxPoints := maxPoints + PlayerMax;
      score := score + pts;
      results := results + [isCorrect];
      statuses := statuses + [StatusOf(isCorrect, a.usedHint)];
      correctAnswers := correctAnswers + [answer];
      if logFor.Some? {
        guessRows := guessRows + [GuessLog(logFor.value, a.player.name, a.player.school, a.guess, isCorrect, a.usedHint)];
        GuessRowsStep(logFor.value, answers, idx);
      }
    }
    assert answers[..|answers|] == answers;
    ScoreBound(answers);
  }

  /** The message tiers of `performance_text`, from best to worst. */
  datatype Tier = Perfect | Crushed | Solid | NotBad | ColdStart

  function TierRank(t: Tier): nat
  {
    match t
    case ColdStart => 0
    case NotBad => 1
    case Solid => 2
    case Crushed => 3
    case Perfect => 4
  }

  /** The message tier for a score: perfect when the score reaches `max_points`;
      otherwise at least 4.0, 3.0 and 2.0 points (16, 12 and 8 quarter-points),
      checked in that order. Below a perfect game the tier is the number of
      whole points minus one, clamped to 0..3. */
  function PerformanceTier(score: int, maxPoints: int): (t: Tier)
    ensures t == Perfect <==> score >= maxPoints
    ensures score < maxPoints ==> TierRank(t) == Clamp(score / 4 - 1, 0, 3)
  {
    if score >= maxPoints then Perfect
    else if score >= 16 then Crushed
    else if score >= 12 then Solid
    else if score >= 8 then NotBad
    else ColdStart
  }

  function Clamp(x: int, lo: int, hi: int): int
  {
    if x < lo then lo else if x > hi then hi else x
  }

  /** A better score never gets a worse message. */
  lemma TierMonotone(s1: int, s2: int, maxPoints: int)
    requires s1 <= s2
    ensures TierRank(PerformanceTier(s1, maxPoints)) <= TierRank(PerformanceTier(s2, maxPoints))
  {
  }

  /** The text shown for each tier. */
  function PerformanceText(t: Tier): string
  {
    match t
    case Perfect => "\U{1F410} Perfect game!"
    case Crushed => "\U{1F525} You crushed it today!"
    case Solid => "\U{1F9E0} Solid effort, keep going!"
    case NotBad => "\U{1F913} Not bad, study those rosters!"
    case ColdStart => "\U{1F9CA} Cold start \U{2013} better luck tomorrow!"
  }

  /** The player dictionaries of a loaded quiz record, which `normalise_usc`
      updates in place. */
  class PlayerEntry {
    const name: string
    var school: string
    const schoolType: string
    var conference: string
    const country: string
    const position: string

    /** The dictionary's current contents. */
    function Value(): Player
      reads this
    {
      Player(name, school, schoolType, conference, country, position)
    }

    constructor (p: Player)
      ensures Value() == p
    {
      name, school, schoolType := p.name, p.school, p.schoolType;
      conference, country, position := p.conference, p.country, p.position;
    }

    /** `normalise_usc`: renames "Southern California" to "USC" and looks up its
        conference, in place. */
    method NormaliseUsc(confs: map<string, string>)
      modifies this
      ensures Value() == UscNormalised(old(Value()), confs)
    {
      if school == "Southern California" {
        school := "USC";
        conference := if "USC" in confs then confs["USC"] else "P12";
      }
    }
  }

  /** What `normalise_usc` makes of a player: only a player whose school is
      "Southern California" changes; it becomes "USC", with the conference the
      table gives for "USC", or "P12" when the table has none. Every other field
      stays. */
  function UscNormalised(p: Player, confs: map<string, string>): (q: Player)
    ensures q.name == p.name && q.schoolType == p.schoolType
    ensures q.country == p.country && q.position == p.position
    ensures p.school != "Southern California" ==> q == p
    ensures p.school == "Southern California" ==>
      q.school == "USC" && q.conference == (if "USC" in confs then confs["USC"] else "P12")
  {
    if p.school == "Southern California" then
      p.(school := "USC", conference := if "USC" in confs then confs["USC"] else "P12")
    else p
  }

  /** The players of a quiz record after the `normalise_usc` loop, as values. */
  function NormalisedPlayers(players: seq<Player>, confs: map<string, string>): (ps: seq<Player>)
    ensures |ps| == |players|
    ensures forall i :: 0 <= i < |players| ==> ps[i] == UscNormalised(players[i], confs)
  {
    seq(|players|, i requires 0 <= i < |players| => UscNormalised(players[i], confs))
  }

  /** Normalising twice is normalising once. */
  lemma UscIdempotent(p: Player, confs: map<string, string>)
    ensures UscNormalised(UscNormalised(p, confs), confs) == UscNormalised(p, confs)
  {
  }

  /** The loop over `data["players"]` that normalises each dictionary in place.
      The same dictionary may appear twice; normalising is idempotent, so every
      position ends up normalised exactly once. */
  method NormalisePlayers(entries: seq<PlayerEntry>, confs: map<string, string>)
    modifies set e | e in entries
    ensures forall i :: 0 <= i < |entries| ==>
      entries[i].Value() == UscNormalised(old(entries[i].Value()), confs)
  {
    for k := 0 to |entries|
      invariant forall i :: 0 <= i < k ==>
        entries[i].Value() == UscNormalised(old(entries[i].Value()), confs)
      invariant forall i :: k <= i < |entries| ==>
        || entries[i].Value() == old(entries[i].Value())
        || entries[i].Value() == UscNormalised(old(entries[i].Value()), confs)
    {
      ghost var before := entries[k].Value();
      UscIdempotent(old(entries[k].Value()), confs);
      entries[k].NormaliseUsc(confs);
      assert entries[k].Value() == UscNormalised(before, confs);
    }
  }
}
