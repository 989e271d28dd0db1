/**
 * What one first solve does to the student, composed in the order the
 * submission handler runs it: credit the points and the topic statistics,
 * step the streak (logging it), log the solve, then run the badge pass; and
 * what the nightly assignment does to each user.
 */
module Progression {
  import opened Wrappers
  import opened Records
  import Topics
  import Ledger
  import Streak
  import Badges
  import Selector

  /** The verdict every submission receives: no test is run, so every submission is accepted. */
  const SubmissionVerdict: Verdict := VerdictSolved

  function StreakOf(u: User): Streak.StreakState {
    Streak.StreakState(u.currentStreak, u.maxStreak, u.lastActiveDate)
  }

  /** The stored user after the streak update: only the three streak fields move. */
  function StreakUpdate(u: User, today: Day): User {
    var s := Streak.Step(StreakOf(u), today);
    u.(currentStreak := s.current, maxStreak := s.max, lastActiveDate := s.lastActive)
  }

  /** A first solve's credit: the question's points, and one solve for each of its tags. */
  function Credit(u: User, q: Question): (r: User)
    ensures r == u.(totalPoints := r.totalPoints, topicStats := r.topicStats)
    ensures r.totalPoints == u.totalPoints + q.points
  {
    u.(totalPoints := u.totalPoints + q.points, topicStats := Topics.AddSolvedTags(u.topicStats, q.tags))
  }

  /** The badges one pass grants the stored user, given the solved count the pass reads. */
  function Granted(u: User, bs: seq<Badge>, solvedCount: nat): seq<Badge> {
    Badges.Grants(Badges.ActiveBadges(bs), Badges.HeldIds(u.badges), solvedCount, u.currentStreak)
  }

  /** The user after a first solve. */
  function AfterFirstSolve(u: User, q: Question, bs: seq<Badge>, solvedCount: nat, today: Day): (r: User)
    ensures r == u.(totalPoints := r.totalPoints, topicStats := r.topicStats, currentStreak := r.currentStreak,
                    maxStreak := r.maxStreak, lastActiveDate := r.lastActiveDate, badges := r.badges)
  {
    var s := StreakUpdate(Credit(u, q), today);
    Badges.Award(s, Granted(s, bs, solvedCount), today)
  }

  /** The activity entries a first solve appends: the streak, the solve, then one per badge. */
  function FirstSolveLog(u: User, q: Question, bs: seq<Badge>, solvedCount: nat, today: Day): (r: seq<LogEntry>)
    ensures |r| >= 2 && r[1] == LogEntry(u.id, QuestionSolved(q.id, q.points), today)
    ensures forall e :: e in r ==> e.student == u.id && e.activityDate == today
  {
    var s := StreakUpdate(Credit(u, q), today);
    [LogEntry(u.id, StreakMaintained(s.currentStreak), today), LogEntry(u.id, QuestionSolved(q.id, q.points), today)]
      + Badges.BadgeLog(u.id, Granted(s, bs, solvedCount), today)
  }

  /**
   * Points are accounted for: what a first solve adds to the student's points
   * is exactly what its log entries credit to the student (the question's
   * points plus every badge bonus), and the entries credit nothing to anyone else.
   */
  lemma FirstSolveAccounting(u: User, q: Question, bs: seq<Badge>, solvedCount: nat, today: Day)
    ensures var entries := FirstSolveLog(u, q, bs, solvedCount, today);
      && AfterFirstSolve(u, q, bs, solvedCount, today).totalPoints == u.totalPoints + LoggedPoints(entries, u.id)
      && forall v :: v != u.id ==> LoggedPoints(entries, v) == 0
  {
    var s := StreakUpdate(Credit(u, q), today);
    var g := Granted(s, bs, solvedCount);
    var head := [LogEntry(u.id, StreakMaintained(s.currentStreak), today), LogEntry(u.id, QuestionSolved(q.id, q.points), today)];
    assert head[1..][1..] == [];
    Badges.BadgeLogCredits(u.id, g, today);
    LoggedPointsAppend(head, Badges.BadgeLog(u.id, g, today), u.id);
    forall v | v != u.id ensures LoggedPoints(FirstSolveLog(u, q, bs, solvedCount, today), v) == 0 {
      Badges.BadgeLogOthers(u.id, g, today, v);
      LoggedPointsAppend(head, Badges.BadgeLog(u.id, g, today), v);
    }
  }

  /**
   * The effects of a first solve on the student: identity and assignment
   * untouched; the streak stepped once for today (keeping its invariant);
   * every tag of the question counted once more as solved; the held badges
   * grown by exactly the grants, each an active badge not held before whose
   * threshold the updated streak (or the solved count read) meets; and the
   * points raised by the question's points plus the grants' bonuses.
   */
  lemma FirstSolveEffects(u: User, q: Question, bs: seq<Badge>, solvedCount: nat, today: Day)
    ensures var after := AfterFirstSolve(u, q, bs, solvedCount, today);
      var g := Granted(StreakUpdate(Credit(u, q), today), bs, solvedCount);
      && after.id == u.id && after.name == u.name && after.role == u.role
      && after.questionOfTheDay == u.questionOfTheDay && after.questionOfTheDayDate == u.questionOfTheDayDate
      && StreakOf(after) == Streak.Step(StreakOf(u), today)
      && (Streak.Consistent(StreakOf(u)) ==> Streak.Consistent(StreakOf(after)))
      && (forall t :: Topics.SolvedOf(after.topicStats, t) == Topics.SolvedOf(u.topicStats, t) + Topics.CountOf(q.tags, t))
      && Badges.HeldIds(after.badges) == Badges.HeldIds(u.badges) + Badges.Ids(g)
      && (forall b :: b in g ==> b in bs && b.isActive && b.id !in Badges.HeldIds(u.badges)
                                 && Badges.Qualifies(b, solvedCount, after.currentStreak))
      && after.totalPoints == u.totalPoints + q.points + Badges.Bonus(g)
  {
    var s := StreakUpdate(Credit(u, q), today);
    var g := Granted(s, bs, solvedCount);
    if Streak.Consistent(StreakOf(u)) {
      Streak.StepConsistent(StreakOf(u), today);
    }
    forall t ensures Topics.SolvedOf(s.topicStats, t) == Topics.SolvedOf(u.topicStats, t) + Topics.CountOf(q.tags, t) {
      Topics.AddSolvedTagsCount(u.topicStats, q.tags, t);
    }
    Badges.HeldAfterAward(u.badges, g, today);
    Badges.GrantsSound(Badges.ActiveBadges(bs), Badges.HeldIds(u.badges), solvedCount, s.currentStreak);
  }

  /**
   * The badge pass of a first solve reads the solved count before the
   * solving row is stored, so the count it sees is one less than the count
   * once the submission completes.
   */
  lemma BadgePassSeesStaleCount(rows: Ledger.Rows, u: UserId, qid: QuestionId, q: Question, code: string, language: string, today: Day)
    requires var key := (u, qid); Ledger.FirstSolve(if key in rows then Some(rows[key]) else None, SubmissionVerdict)
    ensures var key := (u, qid);
      var row := Ledger.AfterSubmission(if key in rows then Some(rows[key]) else None, SubmissionVerdict, q.points, code, language, today);
      |Ledger.SolvedIds(rows[key := row], u)| == |Ledger.SolvedIds(rows, u)| + 1
  {
    var key := (u, qid);
    var row := Ledger.AfterSubmission(if key in rows then Some(rows[key]) else None, SubmissionVerdict, q.points, code, language, today);
    Ledger.SolvedIdsAfterStore(rows, u, qid, row, u);
    assert qid !in Ledger.SolvedIds(rows, u);
  }

  /**
   * Consequently a `problems_solved` badge whose threshold is reached by this
   * very solve is not granted by it: the pass compares the threshold with the
   * count from before the solve.
   */
  lemma ThresholdSolveDefersBadge(u: User, q: Question, bs: seq<Badge>, rows: Ledger.Rows, today: Day, b: Badge)
    requires b.criteria.kind == ProblemsSolved && b.criteria.value == |Ledger.SolvedIds(rows, u.id)| + 1
    ensures b !in Granted(StreakUpdate(Credit(u, q), today), bs, |Ledger.SolvedIds(rows, u.id)|)
  {
    var s := StreakUpdate(Credit(u, q), today);
    Badges.GrantsSound(Badges.ActiveBadges(bs), Badges.HeldIds(s.badges), |Ledger.SolvedIds(rows, u.id)|, s.currentStreak);
  }

  // ---------------------------------------------------------------------------
  // The nightly assignment

  /** The selection for one user, read from the stored user; a missing user gets nothing. */
  function QuestionOfTheDayFor(users: seq<User>, qs: seq<Question>, rows: Ledger.Rows, id: UserId, draw: Selector.Draw): Option<Question> {
    match FindUser(users, id)
    case None => None
    case Some(i) => Selector.Selection(users[i].topicStats, qs, Ledger.SolvedIds(rows, id), draw)
  }

  /** One user after the batch: students get their pick (if any) for the day, everybody else is left alone. */
  function AssignOne(u: User, qs: seq<Question>, rows: Ledger.Rows, draw: Selector.Draw, day: Day): (r: User)
    ensures r == u.(questionOfTheDay := r.questionOfTheDay, questionOfTheDayDate := r.questionOfTheDayDate)
  {
    if u.role == Student then
      Selector.Assign(u, Selector.Selection(u.topicStats, qs, Ledger.SolvedIds(rows, u.id), draw), day)
    else u
  }

  /** The users after the batch, in the same order, each with the draws for its id. */
  function AssignAll(users: seq<User>, qs: seq<Question>, rows: Ledger.Rows, draws: UserId -> Selector.Draw, day: Day): (r: seq<User>)
    ensures |r| == |users|
    ensures forall i :: 0 <= i < |users| ==>
      r[i] == users[i].(questionOfTheDay := r[i].questionOfTheDay, questionOfTheDayDate := r[i].questionOfTheDayDate)
  {
    var r := seq(|users|, i requires 0 <= i < |users| => AssignOne(users[i], qs, rows, draws(users[i].id), day));
    assert forall i :: 0 <= i < |users| ==> r[i] == AssignOne(users[i], qs, rows, draws(users[i].id), day);
    r
  }

  /**
   * The batch changes only the assignment fields. A user who is not a student,
   * or a student without a pick, keeps the previous assignment. A student with
   * a pick gets an active catalog question (one not solved yet, once the
   * student has topic statistics), shown on the assigned day and on no other.
   */
  lemma AssignmentEffects(users: seq<User>, qs: seq<Question>, rows: Ledger.Rows, draws: UserId -> Selector.Draw, day: Day, i: nat)
    requires UniqueQuestionIds(qs) && i < |users|
    ensures var u := users[i]; var after := AssignAll(users, qs, rows, draws, day)[i];
      var pick := Selector.Selection(u.topicStats, qs, Ledger.SolvedIds(rows, u.id), draws(u.id));
      && after == u.(questionOfTheDay := after.questionOfTheDay, questionOfTheDayDate := after.questionOfTheDayDate)
      && (u.role != Student || pick.None? ==> after == u)
      && (u.role == Student && pick.Some? ==>
            && pick.value in qs && pick.value.isActive
            && (|u.topicStats| > 0 ==> pick.value.id !in Ledger.SolvedIds(rows, u.id))
            && forall d :: Selector.VisibleQuestionOfTheDay(after, qs, d) == if d == day then pick else None)
  {
    var u := users[i];
    var pick := Selector.Selection(u.topicStats, qs, Ledger.SolvedIds(rows, u.id), draws(u.id));
    if u.role == Student && pick.Some? {
      if |u.topicStats| > 0 {
        Selector.NeverASolvedQuestion(u.topicStats, qs, Ledger.SolvedIds(rows, u.id), draws(u.id));
      }
      forall d ensures Selector.VisibleQuestionOfTheDay(AssignOne(u, qs, rows, draws(u.id), day), qs, d) == if d == day then pick else None {
        Selector.AssignmentShownOnItsDay(u, qs, pick.value, day, d);
      }
    }
  }
}
