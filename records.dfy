/**
 * The records the progression engine reads and writes: questions, per-(student,
 * question) progress rows, users with their embedded topic statistics and
 * badges, badge definitions, activity-log entries and submissions.
 * Dates are calendar days (a timestamp truncated to midnight).
 */
module Records {
  import opened Wrappers
  import Seqs

  type UserId = nat
  type QuestionId = nat
  type BadgeId = nat
  type Day = nat

  /** Why a request fails: an unknown id, a negative page offset, or a record the schema's validators refuse. */
  datatype Error = NotFound | InvalidPage | ValidationError

  datatype Role = Student | Admin

  datatype Difficulty = Cakewalk | Easy | EasyMedium | Medium | Hard

  /** The string the database stores for a difficulty; it sorts by this string. */
  function DifficultyName(d: Difficulty): string {
    match d
    case Cakewalk => "cakewalk"
    case Easy => "easy"
    case EasyMedium => "easy-medium"
    case Medium => "medium"
    case Hard => "hard"
  }

  /**
   * A catalog question. `isActive`, `totalSubmissions` and `successfulSubmissions`
   * are read and written by the controllers although the schema does not declare them.
   */
  datatype Question = Question(
    id: QuestionId,
    title: string,
    difficulty: Difficulty,
    tags: seq<string>,
    points: int,
    isActive: bool,
    createdAt: nat,
    totalSubmissions: int,
    successfulSubmissions: int)

  datatype Status = NotAttempted | Attempted | Solved

  datatype BestSubmission = BestSubmission(code: string, language: string, executionTime: int, pointsEarned: int)

  /** One progress row per (student, question) pair. */
  datatype Progress = Progress(
    status: Status,
    attempts: int,
    firstAttemptDate: Option<Day>,
    lastAttemptDate: Option<Day>,
    solvedDate: Option<Day>,
    bestSubmission: Option<BestSubmission>,
    totalPointsEarned: int)

  datatype TopicStat = TopicStat(topic: string, totalQuestions: int, solvedQuestions: int, attemptedQuestions: int)

  datatype EarnedBadge = EarnedBadge(badgeId: BadgeId, earnedDate: Day)

  datatype User = User(
    id: UserId,
    name: string,
    role: Role,
    totalPoints: int,
    currentStreak: int,
    maxStreak: int,
    lastActiveDate: Option<Day>,
    questionOfTheDay: Option<QuestionId>,
    questionOfTheDayDate: Option<Day>,
    topicStats: seq<TopicStat>,
    badges: seq<EarnedBadge>)

  datatype CriteriaType = ProblemsSolved | StreakCriteria | ContestParticipation | DailyActivity

  /** Stored with every badge but never consulted by the evaluator. */
  datatype Timeframe = Daily | Weekly | Monthly | AllTime

  datatype Criteria = Criteria(kind: CriteriaType, value: int, timeframe: Timeframe)

  datatype Badge = Badge(id: BadgeId, name: string, criteria: Criteria, points: int, isActive: bool)

  datatype Activity =
    | QuestionSolved(questionId: QuestionId, pointsEarned: int)
    | QuestionAttempted(questionId: QuestionId)
    | StreakMaintained(streakCount: int)
    | BadgeEarned(badgeId: BadgeId, pointsEarned: int)

  datatype LogEntry = LogEntry(student: UserId, activity: Activity, activityDate: Day)

  /** The verdict a submission receives (a different enumeration from a row's status). */
  datatype Verdict = VerdictSolved | VerdictAttempted | VerdictPartial

  datatype SubmissionRecord = SubmissionRecord(
    student: UserId,
    question: QuestionId,
    code: string,
    language: string,
    verdict: Verdict,
    pointsEarned: int,
    submissionTime: Day)

  /** The languages a submission may be written in. */
  const Languages: set<string> := {"javascript", "python", "java", "cpp"}

  /**
   * The submission schema's validators: the code is required (an empty
   * string does not count as present) and the language is one of `Languages`.
   */
  predicate ValidSubmission(code: string, language: string) {
    |code| > 0 && language in Languages
  }

  function FindUser(users: seq<User>, id: UserId): Option<nat> {
    Seqs.FirstIndex(users, (u: User) => u.id == id)
  }

  function FindQuestion(qs: seq<Question>, id: QuestionId): Option<nat> {
    Seqs.FirstIndex(qs, (q: Question) => q.id == id)
  }

  predicate UniqueUserIds(users: seq<User>) {
    forall i, j :: 0 <= i < j < |users| ==> users[i].id != users[j].id
  }

  predicate UniqueQuestionIds(qs: seq<Question>) {
    forall i, j :: 0 <= i < j < |qs| ==> qs[i].id != qs[j].id
  }

  predicate UniqueBadgeIds(bs: seq<Badge>) {
    forall i, j :: 0 <= i < j < |bs| ==> bs[i].id != bs[j].id
  }

  /** With unique ids, looking a stored question up by its id gives that question back. */
  lemma FindStoredQuestion(qs: seq<Question>, q: Question)
    requires UniqueQuestionIds(qs) && q in qs
    ensures FindQuestion(qs, q.id).Some? && qs[FindQuestion(qs, q.id).value] == q
  {
    var k :| 0 <= k < |qs| && qs[k] == q;
    assert qs[k].id == q.id;
  }

  /** The points an activity-log entry credits to student `u`: solves and badge bonuses. */
  function CreditedPoints(e: LogEntry, u: UserId): int {
    if e.student != u then 0
    else match e.activity
      case QuestionSolved(_, p) => p
      case BadgeEarned(_, p) => p
      case _ => 0
  }

  /** All points the log credits to student `u`. */
  function LoggedPoints(log: seq<LogEntry>, u: UserId): int {
    if log == [] then 0 else CreditedPoints(log[0], u) + LoggedPoints(log[1..], u)
  }

  lemma {:induction false} LoggedPointsAppend(a: seq<LogEntry>, b: seq<LogEntry>, u: UserId)
    ensures LoggedPoints(a + b, u) == LoggedPoints(a, u) + LoggedPoints(b, u)
  {
    if a != [] {
      assert (a + b)[1..] == a[1..] + b;
      LoggedPointsAppend(a[1..], b, u);
    } else {
      assert a + b == b;
    }
  }
}
