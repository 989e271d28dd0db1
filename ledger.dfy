/**
 * The progress ledger: one row per (student, question) pair, created on the
 * first submission and updated by every later one, plus the question's
 * submission counters and the merge of rows into the question list.
 */
module Ledger {
  import opened Wrappers
  import opened Records
  import Seqs

  type Key = (UserId, QuestionId)
  type Rows = map<Key, Progress>

  /** A row created by a submission: status attempted, one attempt, first attempt today. */
  function NewRow(today: Day): Progress {
    Progress(Attempted, 1, Some(today), None, None, None, 0)
  }

  /** Whether this submission is the first transition of the pair into `Solved`. */
  predicate FirstSolve(row: Option<Progress>, verdict: Verdict) {
    verdict == VerdictSolved && (row.None? || row.value.status != Solved)
  }

  /**
   * The row after one submission: find or create, count the attempt, and on
   * the first solve record the date, the points and the best submission.
   * An existing row still at `NotAttempted` is moved to `Attempted` when the
   * verdict is not a solve.
   */
  function AfterSubmission(row: Option<Progress>, verdict: Verdict, points: int, code: string, language: string, today: Day): (r: Progress)
    ensures r.status != NotAttempted
    ensures r.lastAttemptDate == Some(today)
  {
    var base := if row.None? then NewRow(today) else row.value;
    var bumped := base.(attempts := base.attempts + 1, lastAttemptDate := Some(today));
    if verdict == VerdictSolved && bumped.status != Solved then
      bumped.(status := Solved, solvedDate := Some(today), totalPointsEarned := points,
              bestSubmission := Some(BestSubmission(code, language, 0, points)))
    else if bumped.status == NotAttempted then
      bumped.(status := Attempted)
    else
      bumped
  }

  /** Every submission counts; a solved verdict also counts as successful, re-solves included. */
  function CountSubmission(q: Question, verdict: Verdict): (c: Question)
    ensures c.id == q.id
    ensures c.totalSubmissions - c.successfulSubmissions >= q.totalSubmissions - q.successfulSubmissions
  {
    q.(totalSubmissions := q.totalSubmissions + 1,
       successfulSubmissions := q.successfulSubmissions + (if verdict == VerdictSolved then 1 else 0))
  }

  /** The questions a student has solved, read from the rows. */
  function SolvedIds(rows: Rows, u: UserId): set<QuestionId> {
    set k | k in rows && k.0 == u && rows[k].status == Solved :: k.1
  }

  function StatusRank(s: Status): nat {
    match s
    case NotAttempted => 0
    case Attempted => 1
    case Solved => 2
  }

  /**
   * Attempt counting: a pair with no row ends with two attempts (the row is
   * created with one and the submission adds one); an existing row gains
   * exactly one; the last attempt date is always today.
   */
  lemma AttemptsCounted(row: Option<Progress>, verdict: Verdict, points: int, code: string, language: string, today: Day)
    ensures var r := AfterSubmission(row, verdict, points, code, language, today);
      && r.lastAttemptDate == Some(today)
      && (row.None? ==> r.attempts == 2 && r.firstAttemptDate == Some(today))
      && (row.Some? ==> r.attempts == row.value.attempts + 1 && r.firstAttemptDate == row.value.firstAttemptDate)
  {
  }

  /**
   * The status never moves back, and a row that is already solved keeps its
   * solve date, its points and its best submission: credit is given once.
   */
  lemma StatusMonotone(row: Option<Progress>, verdict: Verdict, points: int, code: string, language: string, today: Day)
    ensures var r := AfterSubmission(row, verdict, points, code, language, today);
      && (row.Some? ==> StatusRank(r.status) >= StatusRank(row.value.status))
      && (row.Some? && row.value.status == Solved ==>
            && r.status == Solved
            && r.solvedDate == row.value.solvedDate
            && r.totalPointsEarned == row.value.totalPointsEarned
            && r.bestSubmission == row.value.bestSubmission)
  {
  }

  /** The first solve is exactly the case that records the solve date, the points and the best submission. */
  lemma FirstSolveRecords(row: Option<Progress>, verdict: Verdict, points: int, code: string, language: string, today: Day)
    ensures var r := AfterSubmission(row, verdict, points, code, language, today);
      FirstSolve(row, verdict) <==>
        (&& r.status == Solved
         && (row.None? || row.value.status != Solved)
         && r.solvedDate == Some(today)
         && r.totalPointsEarned == points
         && r.bestSubmission == Some(BestSubmission(code, language, 0, points)))
  {
  }

  /**
   * With the solved verdict every submission leaves the row solved, so the
   * branch that moves a row from `NotAttempted` to `Attempted` never runs.
   */
  lemma SolvedVerdictAlwaysSolves(row: Option<Progress>, points: int, code: string, language: string, today: Day)
    ensures AfterSubmission(row, VerdictSolved, points, code, language, today).status == Solved
  {
  }

  /** A submission adds one to the question's submissions and one to its successes exactly on a solved verdict. */
  lemma CountersCounted(q: Question, verdict: Verdict)
    ensures var c := CountSubmission(q, verdict);
      && c.totalSubmissions == q.totalSubmissions + 1
      && (c.successfulSubmissions == q.successfulSubmissions + 1 <==> verdict == VerdictSolved)
      && c.successfulSubmissions >= q.successfulSubmissions
      && c == q.(totalSubmissions := c.totalSubmissions, successfulSubmissions := c.successfulSubmissions)
  {
  }

  /**
   * Storing the row of one submission changes the solved set of that student
   * only by adding the question when the row ends solved; other students'
   * solved sets are unchanged.
   */
  lemma SolvedIdsAfterStore(rows: Rows, u: UserId, q: QuestionId, r: Progress, v: UserId)
    ensures SolvedIds(rows[(u, q) := r], v) ==
      if v != u then SolvedIds(rows, v)
      else if r.status == Solved then SolvedIds(rows, v) + {q}
      else SolvedIds(rows, v) - {q}
  {
    var after := rows[(u, q) := r];
    if v == u && r.status == Solved {
      assert (u, q) in after && after[(u, q)].status == Solved;
    }
    forall x | x in SolvedIds(rows, v) && !(v == u && x == q)
      ensures x in SolvedIds(after, v)
    {
      var k :| k in rows && k.0 == v && rows[k].status == Solved && k.1 == x;
      assert k in after && after[k] == rows[k];
    }
  }

  /** A question as the student's question list shows it, with the student's row merged in. */
  datatype QuestionView = QuestionView(question: Question, studentStatus: Status, attempts: int, totalPointsEarned: int)

  /** The merge in the question list: missing rows read as not attempted, with no attempts and no points. */
  function WithProgress(qs: seq<Question>, rows: Rows, u: UserId): (r: seq<QuestionView>)
    ensures |r| == |qs|
    ensures forall i :: 0 <= i < |qs| ==> r[i].question == qs[i]
  {
    seq(|qs|, i requires 0 <= i < |qs| =>
      var key := (u, qs[i].id);
      if key in rows then QuestionView(qs[i], rows[key].status, rows[key].attempts, rows[key].totalPointsEarned)
      else QuestionView(qs[i], NotAttempted, 0, 0))
  }

  /** The status filter, applied to the merged page. */
  function FilterByStatus(views: seq<QuestionView>, status: Option<Status>): seq<QuestionView> {
    if status.None? then views else Seqs.Filter(views, (v: QuestionView) => v.studentStatus == status.value)
  }

  /**
   * The merged list agrees with the ledger: a question shows as solved exactly
   * when it is among the student's solved questions, and a question with no
   * row shows no attempts and no points.
   */
  lemma WithProgressAgreesWithLedger(qs: seq<Question>, rows: Rows, u: UserId)
    ensures var r := WithProgress(qs, rows, u);
      forall i :: 0 <= i < |qs| ==>
        && (r[i].studentStatus == Solved <==> qs[i].id in SolvedIds(rows, u))
        && ((u, qs[i].id) !in rows ==> r[i] == QuestionView(qs[i], NotAttempted, 0, 0))
  {
    var r := WithProgress(qs, rows, u);
    forall i | 0 <= i < |qs|
      ensures r[i].studentStatus == Solved <==> qs[i].id in SolvedIds(rows, u)
    {
      var key := (u, qs[i].id);
      if key in rows && rows[key].status == Solved {
        assert qs[i].id in SolvedIds(rows, u);
      }
    }
  }

  /** The status filter keeps exactly the merged entries with the requested status. */
  lemma FilterByStatusKeeps(views: seq<QuestionView>, status: Status)
    ensures forall v :: v in FilterByStatus(views, Some(status)) <==> v in views && v.studentStatus == status
  {
  }
}
