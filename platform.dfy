/**
 * The stored collections and the operations that change them: a submission,
 * the streak update and the badge pass it runs, and the batches that assign
 * every student a question of the day.
 */
module Platform {
  import opened Wrappers
  import opened Records
  import Topics
  import Ledger
  import Streak
  import Badges
  import Selector
  import opened Progression

  /**
   * The state invariant: ids are unique, every user's streak fields are
   * consistent, and every user's points are exactly what the activity log
   * credits to that user.
   */
  ghost predicate ValidState(users: seq<User>, questions: seq<Question>, log: seq<LogEntry>) {
    UsersValid(users, log) && UniqueQuestionIds(questions)
  }

  ghost predicate UsersValid(users: seq<User>, log: seq<LogEntry>) {
    && UniqueUserIds(users)
    && (forall i :: 0 <= i < |users| ==> Streak.Consistent(StreakOf(users[i])))
    && (forall i :: 0 <= i < |users| ==> users[i].totalPoints == LoggedPoints(log, users[i].id))
  }

  /** `user.badges.some(b => b.badgeId == id)`. */
  predicate HasBadge(held: seq<EarnedBadge>, id: BadgeId)
    ensures HasBadge(held, id) <==> id in Badges.HeldIds(held)
  {
    exists j :: 0 <= j < |held| && held[j].badgeId == id
  }

  /** The reply to a submission. */
  datatype SubmitReply = SubmitReply(submission: SubmissionRecord, message: string, pointsEarned: int)

  lemma FindUserAt(users: seq<User>, i: nat)
    requires UniqueUserIds(users) && i < |users|
    ensures FindUser(users, users[i].id) == Some(i)
  {
  }

  /** A first solve keeps the state invariant (the counters of a question keep its id). */
  lemma FirstSolveKeepsValid(users: seq<User>, log: seq<LogEntry>, ui: nat,
                             q: Question, bs: seq<Badge>, solvedCount: nat, today: Day)
    requires UsersValid(users, log) && ui < |users|
    ensures UsersValid(users[ui := AfterFirstSolve(users[ui], q, bs, solvedCount, today)],
                       log + FirstSolveLog(users[ui], q, bs, solvedCount, today))
  {
    var u := users[ui];
    var entries := FirstSolveLog(u, q, bs, solvedCount, today);
    var users' := users[ui := AfterFirstSolve(u, q, bs, solvedCount, today)];
    FirstSolveAccounting(u, q, bs, solvedCount, today);
    FirstSolveEffects(u, q, bs, solvedCount, today);
    forall i | 0 <= i < |users'|
      ensures users'[i].totalPoints == LoggedPoints(log + entries, users'[i].id)
    {
      LoggedPointsAppend(log, entries, users'[i].id);
    }
  }

  lemma CountKeepsIds(questions: seq<Question>, k: nat)
    requires UniqueQuestionIds(questions) && k < |questions|
    ensures UniqueQuestionIds(questions[k := Ledger.CountSubmission(questions[k], SubmissionVerdict)])
  {
  }

  /** The batch keeps the state invariant: it touches only the assignment fields. */
  lemma AssignAllKeepsValid(users: seq<User>, questions: seq<Question>, log: seq<LogEntry>, rows: Ledger.Rows,
                            draws: UserId -> Selector.Draw, day: Day)
    requires ValidState(users, questions, log)
    ensures ValidState(AssignAll(users, questions, rows, draws, day), questions, log)
  {
    var after := AssignAll(users, questions, rows, draws, day);
    forall i | 0 <= i < |users|
      ensures after[i] == users[i].(questionOfTheDay := after[i].questionOfTheDay, questionOfTheDayDate := after[i].questionOfTheDayDate)
    {
      assert after[i] == AssignOne(users[i], questions, rows, draws(users[i].id), day);
    }
  }

  class Database {
    var users: seq<User>
    var questions: seq<Question>
    var progress: Ledger.Rows
    var badges: seq<Badge>
    var log: seq<LogEntry>
    var submissions: seq<SubmissionRecord>

    ghost predicate Valid()
      reads this
    {
      ValidState(users, questions, log)
    }

    constructor Load(users: seq<User>, questions: seq<Question>, progress: Ledger.Rows, badges: seq<Badge>,
                     log: seq<LogEntry>, submissions: seq<SubmissionRecord>)
      requires ValidState(users, questions, log)
      ensures this.users == users && this.questions == questions && this.progress == progress
      ensures this.badges == badges && this.log == log && this.submissions == submissions
      ensures Valid()
    {
      this.users := users;
      this.questions := questions;
      this.progress := progress;
      this.badges := badges;
      this.log := log;
      this.submissions := submissions;
    }

    /** The streak update of the stored user at index `ui`, and its `streak_maintained` entry. */
    method UpdateStreak(ui: nat, today: Day)
      requires ui < |users|
      modifies this
      ensures users == old(users)[ui := StreakUpdate(old(users)[ui], today)]
      ensures log == old(log) + [LogEntry(old(users)[ui].id, StreakMaintained(users[ui].currentStreak), today)]
      ensures questions == old(questions) && progress == old(progress)
      ensures badges == old(badges) && submissions == old(submissions)
    {
      var user := users[ui];
      var current := user.currentStreak;
      var max := user.maxStreak;
      match user.lastActiveDate {
        case Some(last) =>
          var daysDiff := today - last;
          if daysDiff == 1 {
            current := current + 1;
            max := if max >= current then max else current;
          } else if daysDiff > 1 {
            current := 1;
          }
        case None =>
          current := 1;
          max := 1;
      }
      users := users[ui := user.(currentStreak := current, maxStreak := max, lastActiveDate := Some(today))];
      log := log + [LogEntry(user.id, StreakMaintained(current), today)];
    }

    /** The threshold test of one badge against the stored user; the solved count is read from the progress rows. */
    method ShouldAward(badge: Badge, user: User) returns (award: bool)
      ensures award == Badges.Qualifies(badge, |Ledger.SolvedIds(progress, user.id)|, user.currentStreak)
    {
      award := false;
      match badge.criteria.kind {
        case ProblemsSolved =>
          var solvedCount := |Ledger.SolvedIds(progress, user.id)|;
          award := solvedCount >= badge.criteria.value;
        case StreakCriteria =>
          award := user.currentStreak >= badge.criteria.value;
        case DailyActivity =>
          award := user.currentStreak >= badge.criteria.value;
        case ContestParticipation =>
      }
    }

    /**
     * The badge pass over `active`, in order, for the user as loaded: each
     * badge not held yet whose threshold is met is added to the earned
     * badges, its bonus to the points, and a `badge_earned` entry to the log.
     */
    method BadgePass(user: User, active: seq<Badge>, today: Day)
      returns (earned: seq<EarnedBadge>, points: int, entries: seq<LogEntry>)
      ensures var g := Badges.Grants(active, Badges.HeldIds(user.badges), |Ledger.SolvedIds(progress, user.id)|, user.currentStreak);
        && earned == user.badges + Badges.Earn(g, today)
        && points == user.totalPoints + Badges.Bonus(g)
        && entries == Badges.BadgeLog(user.id, g, today)
    {
      ghost var held := Badges.HeldIds(user.badges);
      ghost var solved := |Ledger.SolvedIds(progress, user.id)|;
      ghost var g: seq<Badge> := [];
      earned := user.badges;
      points := user.totalPoints;
      entries := [];
      for k := 0 to |active|
        invariant g == Badges.Grants(active[..k], held, solved, user.currentStreak)
        invariant earned == user.badges + Badges.Earn(g, today)
        invariant points == user.totalPoints + Badges.Bonus(g)
        invariant entries == Badges.BadgeLog(user.id, g, today)
      {
        var badge := active[k];
        Badges.GrantsStep(active, k, held, solved, user.currentStreak);
        Badges.HeldAfterAward(user.badges, g, today);
        Badges.AwardStep(user.id, g, badge, today);
        if !HasBadge(earned, badge.id) {
          var shouldAward := ShouldAward(badge, user);
          if shouldAward {
            earned := earned + [EarnedBadge(badge.id, today)];
            points := points + badge.points;
            entries := entries + [LogEntry(user.id, BadgeEarned(badge.id, badge.points), today)];
            g := g + [badge];
          }
        }
      }
      assert active[..|active|] == active;
    }

    /** The badge pass for the stored user at index `ui`, over the active badges, saved with its log entries. */
    method CheckAndAwardBadges(ui: nat, today: Day)
      requires ui < |users|
      modifies this
      ensures var u := old(users)[ui]; var g := Granted(u, badges, |Ledger.SolvedIds(progress, u.id)|);
        && users == old(users)[ui := Badges.Award(u, g, today)]
        && log == old(log) + Badges.BadgeLog(u.id, g, today)
      ensures questions == old(questions) && progress == old(progress)
      ensures badges == old(badges) && submissions == old(submissions)
    {
      var user := users[ui];
      var active := Badges.ActiveBadges(badges);
      var earned, points, entries := BadgePass(user, active, today);
      users := users[ui := user.(badges := earned, totalPoints := points)];
      log := log + entries;
    }

    /**
     * The first-solve branch of a submission for the user at index `ui`:
     * credit the points and the topic statistics, update the streak, save
     * (which writes the fields this copy changed), log the solve, and run
     * the badge pass.
     */
    method CreditFirstSolve(ui: nat, question: Question, today: Day)
      requires ui < |users|
      modifies this
      ensures var u := old(users)[ui]; var n := |Ledger.SolvedIds(progress, u.id)|;
        && users == old(users)[ui := AfterFirstSolve(u, question, badges, n, today)]
        && log == old(log) + FirstSolveLog(u, question, badges, n, today)
      ensures questions == old(questions) && progress == old(progress)
      ensures badges == old(badges) && submissions == old(submissions)
    {
      ghost var u := users[ui];
      ghost var s := StreakUpdate(Credit(u, question), today);
      ghost var n := |Ledger.SolvedIds(progress, u.id)|;
      var user := users[ui];
      user := user.(totalPoints := user.totalPoints + question.points);
      var stats := Topics.BumpTopicStats(user.topicStats, question.tags);
      user := user.(topicStats := stats);
      UpdateStreak(ui, today);
      users := users[ui := users[ui].(totalPoints := user.totalPoints, topicStats := user.topicStats)];
      assert users[ui] == s;
      log := log + [LogEntry(user.id, QuestionSolved(question.id, question.points), today)];
      ghost var mid := log;
      CheckAndAwardBadges(ui, today);
      assert log == mid + Badges.BadgeLog(u.id, Granted(s, badges, n), today);
      assert mid == old(log) + [LogEntry(u.id, StreakMaintained(s.currentStreak), today), LogEntry(u.id, QuestionSolved(question.id, question.points), today)];
    }

    /**
     * The progress part of a submission: find or create the row of the pair,
     * count the attempt, and on the first solve record it and credit the
     * student; the row is stored last.
     */
    method RecordProgress(userId: UserId, question: Question, code: string, language: string, today: Day)
      requires UsersValid(users, log) && FindUser(users, userId).Some?
      modifies this
      ensures UsersValid(users, log)
      ensures questions == old(questions) && badges == old(badges) && submissions == old(submissions)
      ensures var key := (userId, question.id);
        var before := if key in old(progress) then Some(old(progress)[key]) else None;
        var ui := FindUser(old(users), userId).value;
        var n := |Ledger.SolvedIds(old(progress), userId)|;
        && progress == old(progress)[key := Ledger.AfterSubmission(before, SubmissionVerdict, question.points, code, language, today)]
        && (Ledger.FirstSolve(before, SubmissionVerdict) ==>
              && users == old(users)[ui := AfterFirstSolve(old(users)[ui], question, badges, n, today)]
              && log == old(log) + FirstSolveLog(old(users)[ui], question, badges, n, today))
        && (!Ledger.FirstSolve(before, SubmissionVerdict) ==> users == old(users) && log == old(log))
    {
      var status := SubmissionVerdict;
      var pointsEarned := question.points;
      var key := (userId, question.id);
      var row := if key in progress then progress[key] else Ledger.NewRow(today);
      row := row.(attempts := row.attempts + 1, lastAttemptDate := Some(today));
      var attemptLog: seq<LogEntry> := [];
      if status == VerdictSolved && row.status != Solved {
        row := row.(status := Solved, solvedDate := Some(today), totalPointsEarned := pointsEarned,
                    bestSubmission := Some(BestSubmission(code, language, 0, pointsEarned)));
        var ui := FindUser(users, userId).value;
        FirstSolveKeepsValid(users, log, ui, question, badges, |Ledger.SolvedIds(progress, userId)|, today);
        assert users[ui].id == userId;
        CreditFirstSolve(ui, question, today);
      } else if row.status == NotAttempted {
        row := row.(status := Attempted);
        attemptLog := [LogEntry(userId, QuestionAttempted(question.id), today)];
      }
      assert attemptLog == [] && log + attemptLog == log;
      log := log + attemptLog;
      progress := progress[key := row];
    }

    /**
     * A submission by `userId` for `questionId`: an unknown question is
     * `NotFound` and changes nothing; a submission the schema refuses (no
     * code, or an unknown language) is a `ValidationError` and changes
     * nothing, since creating the submission is the first write; otherwise
     * the submission is recorded, the progress row is created or updated, a
     * first solve credits the student, and the question's counters are bumped.
     */
    method SubmitSolution(userId: UserId, questionId: QuestionId, code: string, language: string, today: Day)
      returns (r: Result<SubmitReply, Error>)
      requires Valid() && FindUser(users, userId).Some?
      modifies this
      ensures Valid()
      ensures badges == old(badges)
      ensures FindQuestion(old(questions), questionId).None? ==>
        && r == Failure(NotFound)
        && users == old(users) && questions == old(questions) && progress == old(progress)
        && log == old(log) && submissions == old(submissions)
      ensures FindQuestion(old(questions), questionId).Some? && !ValidSubmission(code, language) ==>
        && r == Failure(ValidationError)
        && users == old(users) && questions == old(questions) && progress == old(progress)
        && log == old(log) && submissions == old(submissions)
      ensures FindQuestion(old(questions), questionId).Some? && ValidSubmission(code, language) ==>
        var qi := FindQuestion(old(questions), questionId).value;
        var q := old(questions)[qi];
        var key := (userId, questionId);
        var before := if key in old(progress) then Some(old(progress)[key]) else None;
        var ui := FindUser(old(users), userId).value;
        var n := |Ledger.SolvedIds(old(progress), userId)|;
        var record := SubmissionRecord(userId, questionId, code, language, SubmissionVerdict, q.points, today);
        && r == Success(SubmitReply(record, "Solution accepted!", q.points))
        && submissions == old(submissions) + [record]
        && progress == old(progress)[key := Ledger.AfterSubmission(before, SubmissionVerdict, q.points, code, language, today)]
        && questions == old(questions)[qi := Ledger.CountSubmission(q, SubmissionVerdict)]
        && (Ledger.FirstSolve(before, SubmissionVerdict) ==>
              && users == old(users)[ui := AfterFirstSolve(old(users)[ui], q, badges, n, today)]
              && log == old(log) + FirstSolveLog(old(users)[ui], q, badges, n, today))
        && (!Ledger.FirstSolve(before, SubmissionVerdict) ==> users == old(users) && log == old(log))
    {
      var qi := FindQuestion(questions, questionId);
      if qi.None? {
        return Failure(NotFound);
      }
      if !ValidSubmission(code, language) {
        return Failure(ValidationError);
      }
      var question := questions[qi.value];
      var status := SubmissionVerdict;
      var pointsEarned := question.points;
      var submission := SubmissionRecord(userId, questionId, code, language, status, pointsEarned, today);
      submissions := submissions + [submission];

      RecordProgress(userId, question, code, language, today);

      var counted := question.(totalSubmissions := question.totalSubmissions + 1);
      if status == VerdictSolved {
        counted := counted.(successfulSubmissions := counted.successfulSubmissions + 1);
      }
      CountKeepsIds(questions, qi.value);
      questions := questions[qi.value := counted];
      var message := if status == VerdictSolved then "Solution accepted!" else "Keep trying!";
      r := Success(SubmitReply(submission, message, if status == VerdictSolved then pointsEarned else 0));
    }

    /** The selection for one student; a student that cannot be loaded gets nothing. */
    method SelectQuestionOfTheDay(studentId: UserId, draw: Selector.Draw) returns (r: Option<Question>)
      ensures r == QuestionOfTheDayFor(users, questions, progress, studentId, draw)
    {
      var ui := FindUser(users, studentId);
      if ui.None? {
        return None;
      }
      var solved := Ledger.SolvedIds(progress, studentId);
      r := Selector.SelectQuestion(users[ui.value].topicStats, questions, solved, draw);
    }

    /** One pass over the stored users: each student gets the selection (when there is one) for `day`. */
    method Assignments(day: Day, draws: UserId -> Selector.Draw) returns (updated: seq<User>)
      requires UniqueUserIds(users)
      ensures updated == AssignAll(users, questions, progress, draws, day)
    {
      updated := users;
      for i := 0 to |users|
        invariant |updated| == |users|
        invariant forall j :: 0 <= j < i ==> updated[j] == AssignOne(users[j], questions, progress, draws(users[j].id), day)
        invariant forall j :: i <= j < |users| ==> updated[j] == users[j]
      {
        var student := users[i];
        if student.role == Student {
          FindUserAt(users, i);
          var pick := SelectQuestionOfTheDay(student.id, draws(student.id));
          if pick.Some? {
            updated := updated[i := student.(questionOfTheDay := Some(pick.value.id), questionOfTheDayDate := Some(day))];
          }
        }
      }
    }

    /** The batch for `day`, saving every student's new assignment. */
    method AssignQuestionsOfTheDay(day: Day, draws: UserId -> Selector.Draw)
      requires Valid()
      modifies this
      ensures users == AssignAll(old(users), questions, progress, draws, day)
      ensures questions == old(questions) && progress == old(progress) && badges == old(badges)
      ensures log == old(log) && submissions == old(submissions)
      ensures Valid()
    {
      AssignAllKeepsValid(users, questions, log, progress, draws, day);
      var updated := Assignments(day, draws);
      users := updated;
    }

    /** The nightly run: every student's pick is assigned for the next day. */
    method ScheduleQuestionOfTheDay(today: Day, draws: UserId -> Selector.Draw)
      requires Valid()
      modifies this
      ensures users == AssignAll(old(users), questions, progress, draws, today + 1)
      ensures questions == old(questions) && progress == old(progress) && badges == old(badges)
      ensures log == old(log) && submissions == old(submissions)
      ensures Valid()
    {
      AssignQuestionsOfTheDay(today + 1, draws);
    }

    /** The manual run: every student's pick is assigned for today. */
    method TriggerQuestionOfTheDay(today: Day, draws: UserId -> Selector.Draw) returns (message: string)
      requires Valid()
      modifies this
      ensures users == AssignAll(old(users), questions, progress, draws, today)
      ensures questions == old(questions) && progress == old(progress) && badges == old(badges)
      ensures log == old(log) && submissions == old(submissions)
      ensures Valid()
      ensures message == "Question of the Day updated for all students"
    {
      AssignQuestionsOfTheDay(today, draws);
      message := "Question of the Day updated for all students";
    }
  }
}
