# MentorQuest progression and ranking engine, in Dafny

MentorQuest is a coding-practice platform. Students submit solutions to
questions. The server keeps one progress row per (student, question) pair and
credits points on the first solve. It maintains per-topic solve statistics, a
daily streak and badges, and ranks students on a leaderboard and a dashboard.
Every night it assigns each student a "question of the day", chosen from the
student's weakest topic.

This project models that engine and proves properties of the model. The data
lives in one `Platform.Database` object. Its fields are the users, the
questions, the progress rows, the badges, the activity log and the
submissions. The operations that change that state are methods:
- a submission (`SubmitSolution`), with the streak update and the badge pass it runs;
- the nightly and the manual question-of-the-day batches.

Each method is proved against pure specification functions. The properties the
source promises are proved as lemmas about those functions.

Modules, following the source:

- `Records`: the stored records (user, question, progress row, badge,
  activity entry, submission) as datatypes.
- `Topics`: the per-tag update of a student's topic statistics.
- `Ledger`: the progress row after a submission, the question's counters,
  and the merge of rows into the question list.
- `Streak`: the streak state machine over (current, longest, last active day).
- `Badges`: one badge pass over the active badges.
- `Ranking`: the paginated leaderboard and the dashboard rank.
- `Selector`: the question-of-the-day selection and the dashboard's
  same-day visibility of an assignment.
- `Progression`: a first solve composed in source order, and the batch
  assignment of one user.
- `Platform`: the `Database` class and its state invariant.
- Helpers: `Wrappers` (`Option`, `Result`), `Seqs` (filter, stable insertion
  sort, first index) and `Lex` (string order).

Modelling choices:

- Dates are whole day numbers. "Today" is a parameter of every operation.
- `Math.random()` is a `Selector.Random`: a fraction `num/den` with
  `num < den`. `Math.floor(Math.random() * n)` is `num * n / den`, which is
  below `n` for `n > 0`. The batch receives one pair of draws per user id.
- Every submission gets the verdict `solved`, because no test is run
  (`Progression.SubmissionVerdict`). The row functions still take the verdict
  as a parameter, so the branch that moves a row from not attempted to
  attempted is written down. `Ledger.SolvedVerdictAlwaysSolves` shows it
  never runs.
- The submission handler loads the user twice: once itself and once inside
  the streak update. It saves the streak first, then its own copy, which
  writes only the points and the topic statistics it changed. The model
  applies the same writes in the same order: points and topics, then the
  streak and its log entry, then the solve's log entry, then the badge pass.
- The topic statistics of a first solve use the intended update, in which a
  new topic's entry counts the solve that creates it. The code as written
  loses that solve (see "## Findings"). `Topics.AddSolvedTagsAsWritten` models
  the code as written, and `Topics.AsWrittenLosesNewTopicSolve` states the
  difference: one solve fewer for each topic new to the student.
- A submission the schema refuses (no code, or a language other than
  javascript, python, java or cpp) fails before anything is written, because
  creating the submission is the handler's first write.
- The badge pass counts solved rows before the current row is stored. The
  row is saved after the pass. This is modelled as written, and
  `Progression.BadgePassSeesStaleCount` and
  `Progression.ThresholdSolveDefersBadge` state the consequence.
- The question fields `isActive`, `totalSubmissions` and
  `successfulSubmissions` are fields of `Records.Question`. The controllers
  use them, but `server/models/Question.js` does not declare them.
- The difficulty order of the selector is the string order of the stored
  names: cakewalk, easy, easy-medium, hard, medium.
- A selected topic that is absent or the empty string counts as not
  selected, as in JavaScript. When no active question has a tag, the
  fallback topic is absent. That leaves no candidates, so the selector takes
  the first active unsolved question.
- The state invariant `Platform.ValidState` holds in every state reached from
  `Platform.Database.Load` by the modelled operations:
  - user and question ids are unique;
  - every user's streak fields are consistent;
  - every user's points equal the points the activity log credits to that user.

## Model

| member | source | states |
|---|---|---|
| Topics.AddSolvedTag | server/controllers/userController.js:247-252 | one tag adds at most one entry to the statistics |
| Topics.AddSolvedTags | server/controllers/userController.js:245-253 | all tags add at most one entry per tag |
| Topics.BumpTopicStats | server/controllers/userController.js:245-253 | the loop over the question's tags computes the specification `AddSolvedTags` |
| Topics.AddSolvedTagCount | server/controllers/userController.js:247-252 | one tag raises that topic's solved count by one and leaves every other topic's count unchanged |
| Topics.AddSolvedTagsCount | server/controllers/userController.js:245-253 | a first solve raises each topic's solved count by the number of times the question carries that tag |
| Topics.AddSolvedTagsShape | server/controllers/userController.js:245-253 | existing entries keep their place, topic, total and attempted counts, and are untouched unless tagged; new entries are for tags of the question and start with zero totals |
| Topics.NewTopicSolveLost | server/controllers/userController.js:247-252 | as written, the solve that creates a topic entry is not counted in it (0), where the intended update counts it (1) |
| Topics.AddSolvedTagAsWritten | server/controllers/userController.js:247-252 | the step as written adds at most one entry to the statistics |
| Topics.AddSolvedTagsAsWritten | server/controllers/userController.js:245-253 | the loop as written adds at most one entry per tag |
| Topics.AddSolvedTagAsWrittenCount | server/controllers/userController.js:247-252 | as written, one tag adds a solve only to a topic the student already had, and leaves an entry for the tag either way |
| Topics.AddSolvedTagsAsWrittenCount | server/controllers/userController.js:245-253 | as written, a topic the student had gains one solve per occurrence of its tag; a new topic gets one solve fewer, so a tag listed once leaves 0 |
| Topics.AsWrittenLosesNewTopicSolve | server/controllers/userController.js:245-253 | the code as written and the intended update differ exactly by one lost solve on each topic new to the student |
| Ledger.AttemptsCounted | server/controllers/userController.js:209-225 | a pair with no row ends with 2 attempts and today's first-attempt date; an existing row gains exactly 1 attempt and keeps its first-attempt date; the last-attempt date is today |
| Ledger.StatusMonotone | server/controllers/userController.js:227-239 | the status never moves back; a solved row keeps its solve date, points and best submission |
| Ledger.FirstSolveRecords | server/controllers/userController.js:227-239 | the first transition into solved happens exactly when the row records today's solve date, the question's points and the submission as the best one |
| Ledger.SolvedVerdictAlwaysSolves | server/controllers/userController.js:272-283 | with the solved verdict every submission leaves the row solved, so the not-attempted branch never runs |
| Ledger.AfterSubmission | server/controllers/userController.js:209-283 | after any submission the row is at least attempted and its last-attempt date is today |
| Ledger.CountSubmission | server/controllers/userController.js:287-292 | the question keeps its id, and its count of unsuccessful submissions never drops |
| Ledger.CountersCounted | server/controllers/userController.js:287-292 | every submission adds 1 to the total; a solved verdict, and only that, adds 1 to the successes, re-solves included; nothing else changes |
| Ledger.SolvedIdsAfterStore | server/controllers/userController.js:285 | storing a row adds its question to that student's solved set if the row is solved, and leaves other students' sets unchanged |
| Ledger.WithProgress | server/controllers/userController.js:114-122 | the merged list has one entry per question, in the same order |
| Ledger.WithProgressAgreesWithLedger | server/controllers/userController.js:114-122 | a question shows as solved exactly when it is in the student's solved set; a question with no row shows not attempted, 0 attempts and 0 points |
| Ledger.FilterByStatusKeeps | server/controllers/userController.js:124-128 | the status filter keeps exactly the entries with the requested status |
| Streak.Step | server/controllers/userController.js:374-395 | the last active day always becomes today |
| Streak.StepConsistent | server/controllers/userController.js:376-393 | the step keeps 0 <= current <= longest, never lowers the longest streak, and leaves current >= 1 |
| Streak.StepSameDay | server/controllers/userController.js:378-395 | a second solve on the same day changes nothing |
| Streak.RunConsistent | server/controllers/userController.js:374-395 | any sequence of steps from a new user keeps the invariant |
| Streak.MaxIsRunningMax | server/controllers/userController.js:380-393 | the longest streak is at least every current streak seen so far and equals one of them |
| Streak.StreakCountsConsecutiveDays | server/controllers/userController.js:376-395 | for days in order, the current streak c counts the consecutive days ending at the last active day: all of them are solve days and the day before them is not |
| Badges.GrantsSound | server/controllers/userController.js:413-443 | every grant is one of the badges, was not held, meets its threshold, and no id is granted twice |
| Badges.GrantsComplete | server/controllers/userController.js:413-443 | after the pass every badge whose threshold is met is held |
| Badges.GrantedIffQualifies | server/controllers/userController.js:413-443 | with distinct ids, a badge not held before the pass is granted exactly when its threshold is met |
| Badges.GrantsIdempotent | server/controllers/userController.js:409-459 | re-running the pass with the same totals grants nothing |
| Badges.HeldAfterAward | server/controllers/userController.js:439-443 | the held badge ids grow by exactly the granted ids |
| Badges.NothingLeftToGrant | server/controllers/userController.js:413-416 | when every qualifying badge is already held, the pass grants nothing |
| Badges.Qualifies | server/controllers/userController.js:420-437 | a contest-participation badge never qualifies, since the switch has no case for it |
| Badges.Grants | server/controllers/userController.js:413-443 | the pass never grants a badge the student already holds |
| Badges.EarnIds | server/controllers/userController.js:440-443 | the earned entries carry exactly the granted ids |
| Badges.BadgeLogCredits | server/controllers/userController.js:445-454 | the badge log entries credit the student exactly the bonus added to the points |
| Badges.BadgeLogOthers | server/controllers/userController.js:447-454 | badge log entries credit nothing to any other student |
| Badges.BadgeLog | server/controllers/userController.js:447-454 | one entry per grant, each for the student and dated on the day of the pass |
| Lex.StrLeTotal | server/controllers/userController.js:469 | any two names are ordered one way or the other |
| Lex.StrLeTransitive | server/controllers/userController.js:469 | the name order is transitive |
| Lex.StrLeAntisymmetric | server/controllers/userController.js:469 | names ordered both ways are equal |
| Ranking.LeaderLeTotalPreorder | server/controllers/userController.js:469 | points descending, then names ascending, is a total preorder |
| Ranking.Ranked | server/controllers/userController.js:467-469 | the ranking is a permutation of the students and is in leaderboard order |
| Ranking.RankedAreStudents | server/controllers/userController.js:467 | the ranking holds exactly the users with role student |
| Ranking.Page | server/controllers/userController.js:470-477 | a page holds the next `limit` entries from `skip` on, fewer only at the end of the ranking, all of them for a limit of 0; entry i is the user at position skip + i, with rank skip + i + 1 |
| Ranking.PageOrdered | server/controllers/userController.js:467-477 | ranks on a page are distinct and consecutive even when points tie, and entries are in leaderboard order |
| Ranking.SkipOfValidPage | server/controllers/userController.js:465 | page 1 or later gives a non-negative skip |
| Ranking.LeaderboardPage | server/controllers/userController.js:464-471 | a request fails exactly when its skip is negative, never for page 1 or later; otherwise it is the page of the full ranking at that skip |
| Ranking.Leaderboard | server/controllers/userController.js:464-477 | a failed request fails with an invalid-page error; every entry of a served page has rank 1 or more |
| Ranking.CountAboveMonotone | server/controllers/userController.js:42 | more points never means more users strictly above; strictly fewer when someone holds the higher score |
| Ranking.DashboardRankMonotone | server/controllers/userController.js:42 | more points never rank worse on the dashboard; strictly better when someone holds the higher score |
| Ranking.DashboardRank | server/controllers/userController.js:42 | the dashboard rank lies between 1 and one more than the number of users |
| Ranking.CountAboveSorted | server/controllers/userController.js:42 | in leaderboard order, at most i users are above position i, and exactly i at the first of a group of tied points |
| Ranking.DashboardRankVsLeaderboard | server/controllers/userController.js:42 | among students, the dashboard rank of leaderboard position i is at most i + 1 and equals it for the first of a tied group, so ties share the dashboard rank |
| Selector.Pick | server/utils/questionOfTheDay.js:98 | the random index is below the length of a non-empty list |
| Selector.DifficultyOrderIsNameOrder | server/utils/questionOfTheDay.js:81 | sorting by difficulty orders cakewalk, easy, easy-medium, hard, medium |
| Selector.HardSortsBeforeMedium | server/utils/questionOfTheDay.js:81 | "hard" sorts before "medium", the reverse of the difficulty scale |
| Selector.QuestionLeTotalPreorder | server/utils/questionOfTheDay.js:81 | difficulty, then creation time, is a total preorder |
| Selector.WeakestIndexSpec | server/utils/questionOfTheDay.js:55-63 | the chosen entry has total questions >= 1 and the smallest solved count, the earliest on ties; there is none exactly when no entry qualifies |
| Selector.WeakestTopic | server/utils/questionOfTheDay.js:55-63 | the scan keeping the minimum solved count selects the topic of the specified entry |
| Selector.SolveOnlyStatsNeverEligible | server/utils/questionOfTheDay.js:58-63 | statistics built only by first solves never qualify a topic, since their total counts stay 0 |
| Selector.ActiveTagList | server/utils/questionOfTheDay.js:67 | a tag is listed exactly when some active question carries it |
| Selector.Distinct | server/utils/questionOfTheDay.js:67 | the distinct list has the same members, none repeated |
| Selector.DistinctActiveTags | server/utils/questionOfTheDay.js:67 | a tag is in the distinct list exactly when some active question carries it |
| Selector.ChosenTopicSpec | server/utils/questionOfTheDay.js:65-69 | a non-empty weakest topic is kept; otherwise the topic is a tag of an active question, and there is none only when no active question carries a tag |
| Selector.ChosenTopic | server/utils/questionOfTheDay.js:55-69 | the chosen topic is the weakest topic or a tag of an active question |
| Selector.Candidates | server/utils/questionOfTheDay.js:77-81 | the candidates are exactly the active questions with the topic that the student has not solved, sorted by difficulty then creation time |
| Selector.UnsolvedActive | server/utils/questionOfTheDay.js:85-88 | exactly the active unsolved questions, sorted by difficulty then creation time |
| Selector.Cakewalks | server/utils/questionOfTheDay.js:48-51 | exactly the active cakewalk questions, oldest first |
| Selector.LowestGroup | server/utils/questionOfTheDay.js:92-95 | the non-empty group of candidates sharing the first candidate's difficulty |
| Selector.SelectQuestion | server/utils/questionOfTheDay.js:44-99 | the selection steps compute the specification `Selection` |
| Selector.NewStudentGetsOldestCakewalk | server/utils/questionOfTheDay.js:46-52 | with no topic statistics: the oldest active cakewalk question, and none only when there is no active cakewalk question |
| Selector.PickFromLowestDifficulty | server/utils/questionOfTheDay.js:91-99 | with candidates: a candidate (active, with the topic, unsolved) of the first candidate's difficulty, which is the lowest among them |
| Selector.FallbackIsFirstUnsolved | server/utils/questionOfTheDay.js:83-89 | without candidates: the first active unsolved question in difficulty-then-creation order, which comes no later in that order than any other active unsolved question; none exactly when every active question is solved |
| Selector.NeverASolvedQuestion | server/utils/questionOfTheDay.js:72-99 | once the student has statistics, the result is an active catalog question the student has not solved |
| Selector.Selection | server/utils/questionOfTheDay.js:40-105 | whatever the branch, the selected question is an active catalog question |
| Selector.VisibleQuestionOfTheDay | server/controllers/userController.js:26-33 | a question is shown only when the question and the date are set, the date is today and the question exists; otherwise nothing |
| Selector.AssignmentShownOnItsDay | server/controllers/userController.js:26-33 | an assignment made for a day is shown on that day and on no other |
| Selector.Assign | server/utils/questionOfTheDay.js:18-26 | only the assignment fields change; a pick sets the question and the day |
| Selector.ReassignSameDay | server/utils/questionOfTheDay.js:111-122 | re-running the assignment for the same day with the same draws changes nothing |
| Progression.FirstSolveAccounting | server/controllers/userController.js:241-271 | the points a first solve adds equal what its log entries credit to the student; the entries credit nothing to others |
| Progression.Credit | server/controllers/userController.js:241-253 | only the points and the topic statistics change, and the points rise by the question's points |
| Progression.AfterFirstSolve | server/controllers/userController.js:240-271 | a first solve changes only the points, topic statistics, the three streak fields and the held badges |
| Progression.FirstSolveLog | server/controllers/userController.js:256-271 | the entries are all for the student and dated today; the solve's entry, with the question's points, comes second, after the streak entry |
| Progression.FirstSolveEffects | server/controllers/userController.js:240-271 | identity and assignment untouched; streak stepped for today and still consistent; each tag counted under the intended topic update; badges grown by exactly the grants, each active, new and qualifying; points up by the question's points plus the bonuses |
| Progression.BadgePassSeesStaleCount | server/controllers/userController.js:271-285 | the solved count the badge pass reads is one less than the count after the submission completes |
| Progression.ThresholdSolveDefersBadge | server/controllers/userController.js:421-427 | a problems-solved badge whose threshold this very solve reaches is not granted by it |
| Progression.AssignmentEffects | server/utils/questionOfTheDay.js:15-29 | only the assignment fields change; non-students and students without a pick keep their assignment; a pick is an active catalog question, unsolved once the student has statistics, shown on the assigned day and no other |
| Progression.AssignOne | server/utils/questionOfTheDay.js:15-29 | one user's assignment step changes only the assignment fields |
| Progression.AssignAll | server/utils/questionOfTheDay.js:15-29 | the batch keeps the users and their order, and changes only the assignment fields |
| Platform.HasBadge | server/controllers/userController.js:413 | holds exactly when the id is among the held badge ids |
| Platform.FirstSolveKeepsValid | server/controllers/userController.js:240-271 | a first solve keeps unique ids, consistent streaks and points equal to logged credits |
| Platform.AssignAllKeepsValid | server/utils/questionOfTheDay.js:15-29 | the batch keeps the state invariant |
| Platform.Database.Load | server/models/User.js:13-16 | loads a state that satisfies the invariant, as a new user with the schema defaults (no points, streaks 0, never active) does |
| Platform.Database.UpdateStreak | server/controllers/userController.js:369-406 | the stored user's streak takes one step of the state machine and nothing else of the user changes; a streak entry with the new count is logged |
| Platform.Database.ShouldAward | server/controllers/userController.js:420-438 | the switch over the criteria type decides the threshold predicate |
| Platform.Database.BadgePass | server/controllers/userController.js:413-456 | the loop over the active badges appends exactly the specified grants, their bonuses and their log entries |
| Platform.Database.CheckAndAwardBadges | server/controllers/userController.js:409-459 | the stored user receives the pass's grants and bonuses, and the log the badge entries; nothing else changes |
| Platform.Database.CreditFirstSolve | server/controllers/userController.js:240-271 | the stored user becomes the first-solve result and the log gains the streak, solve and badge entries, in that order |
| Platform.Database.RecordProgress | server/controllers/userController.js:209-285 | the pair's row is the specified row after the submission; a first solve credits the student, otherwise users and log are unchanged; the invariant is kept |
| Platform.Database.SubmitSolution | server/controllers/userController.js:182-302 | an unknown question fails with NotFound and changes nothing; a submission the schema refuses fails with ValidationError and changes nothing; otherwise the submission is recorded, the row updated, the student credited on a first solve only, and the question's counters bumped; the invariant is kept |
| Platform.Database.SelectQuestionOfTheDay | server/utils/questionOfTheDay.js:40-105 | the selection for the stored student, and nothing for a student who cannot be loaded |
| Platform.Database.Assignments | server/utils/questionOfTheDay.js:15-29 | the loop over the users computes the specified batch result |
| Platform.Database.AssignQuestionsOfTheDay | server/utils/questionOfTheDay.js:15-29 | the users become the batch result for the day; nothing else changes; the invariant is kept |
| Platform.Database.ScheduleQuestionOfTheDay | server/utils/questionOfTheDay.js:7-37 | every student's pick is assigned for the next day |
| Platform.Database.TriggerQuestionOfTheDay | server/utils/questionOfTheDay.js:108-125 | every student's pick is assigned for today, and the fixed message is returned |

## Left out

- HTTP handling, request parsing, reply shapes other than the submission's, and routes. The authenticated user of a request must exist (`SubmitSolution` requires it), because the middleware loads it.
- Database I/O. Queries, `populate`, `save` and `distinct` are replaced by the in-memory collections. Failures of the database itself, which the source reports as server errors, are not modelled.
- The cron schedule itself. Only the per-student assignment step is modelled.
- Millisecond date arithmetic, time zones and daylight-saving shifts. Days are whole numbers.
- Concurrent requests and the races between them.
- Authentication, password hashing, OAuth, the admin controller and the client.
- The question list's query, search, sorting and pagination. Only the merge of progress rows into the page and the status filter are modelled.
- The order of the tags `distinct` returns. The model returns them in catalog order, and the random pick may land on a different tag than in the database.
- When no active question has a tag, the source queries with an undefined topic. Whether the driver then drops that condition is not modelled: the model treats the topic as absent and falls back to the first unsolved question.
- Non-numeric or negative `limit` values in the leaderboard. `limit` is a natural number, and 0 means no limit.
- The leaderboard's page count and total, and the fields the dashboard and the profile return besides the question of the day and the rank.
- Mongoose's strict mode, which drops fields a schema does not declare. The question fields `isActive`, `totalSubmissions` and `successfulSubmissions` are modelled as if declared.
- Topics.BumpTopicStats: computes the intended topic update, not the code as written, which loses the solve that creates a new topic's entry; `Topics.AddSolvedTagsAsWrittenCount` states what the code does.
- Progression.Credit: uses the intended topic update (see `Topics.BumpTopicStats` above).
- Progression.FirstSolveEffects: its per-tag count is that of the intended topic update; as written, a topic new to the student gets one solve fewer.
- Platform.Database.CreditFirstSolve: stores the intended topic update; as written, a topic new to the student gets one solve fewer.
- Platform.Database.RecordProgress: its first-solve credit carries the intended topic update; as written, a topic new to the student gets one solve fewer.
- Platform.Database.SubmitSolution: its first-solve credit carries the intended topic update. Of the schema's checks only the ones on code and language are modelled; ids are always well formed here.
- The admin operations are not modelled. Setting a user's fields directly, or deleting a question's or a badge's activity entries while the points they credited stay, can break the points-equal-log clause of `Platform.ValidState`. So the invariant holds only for states reached by the operations modelled here.
- Selector.Pick: models `Math.floor(Math.random() * n)` exactly for a random value given as a fraction; floating-point rounding of the product is not modelled.
- Selector.ReassignSameDay: holds only when the same draws are used; the source draws fresh random numbers each run.

## Findings

| source | as written | input that shows it | evidently intended | confidence | as-written member | corrected member |
|---|---|---|---|---|---|---|
| server/controllers/userController.js:247-252 | a new topic entry is pushed as a plain object into the document array, which stores a converted copy; the following `solvedQuestions += 1` updates the plain object, so the new entry is saved with 0 solves | a student with no entry for tag "arrays" solves a question tagged ["arrays"]: the saved entry has solvedQuestions 0 | every tag of a first solve adds 1 to that topic's solved count, new topics included | medium, not executed | Topics.NewTopicSolveLost | Topics.AddSolvedTagsCount |
