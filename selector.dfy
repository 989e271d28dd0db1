/**
 * The question-of-the-day selector: the weakest topic (or a random active tag
 * when no topic qualifies), the active unsolved questions of that topic in
 * difficulty-then-creation order, and a random pick among those of the lowest
 * difficulty; plus the dashboard's same-day visibility of an assignment.
 */
module Selector {
  import opened Wrappers
  import opened Records
  import Lex
  import Seqs
  import Topics

  /** A value of `Math.random()`, a number in [0, 1), written as a fraction. */
  datatype Fraction = Fraction(num: nat, den: nat)
  type Random = f: Fraction | f.num < f.den witness Fraction(0, 1)

  /** The two random draws one selection may make: a fallback topic and a pick in the lowest group. */
  datatype Draw = Draw(topicPick: Random, groupPick: Random)

  lemma DivBelow(x: nat, d: nat, n: nat)
    requires d > 0 && x < d * n
    ensures x / d < n
  {
    var q := x / d;
    assert d * q <= x;
    assert d * q < d * n;
  }

  /** `Math.floor(Math.random() * n)`: an index below n whenever n > 0. */
  function Pick(n: nat, r: Random): (i: nat)
    ensures n > 0 ==> i < n
  {
    if n == 0 then 0
    else
      assert r.num * n < r.den * n;
      DivBelow(r.num * n, r.den, n);
      r.num * n / r.den
  }

  // ---------------------------------------------------------------------------
  // Ordering of questions

  /** Difficulty order as the database sorts the stored strings. */
  predicate DifficultyLe(a: Difficulty, b: Difficulty) {
    Lex.StrLe(DifficultyName(a), DifficultyName(b))
  }

  /** The position of each difficulty in that string order. */
  function SortKey(d: Difficulty): nat {
    match d
    case Cakewalk => 0
    case Easy => 1
    case EasyMedium => 2
    case Hard => 3
    case Medium => 4
  }

  /** The difficulty scale the catalog is meant to follow, from easiest to hardest. */
  function ScaleRank(d: Difficulty): nat {
    match d
    case Cakewalk => 0
    case Easy => 1
    case EasyMedium => 2
    case Medium => 3
    case Hard => 4
  }

  lemma StrLeStep(a: string, b: string)
    requires |a| > 0 && |b| > 0 && a[0] == b[0]
    ensures Lex.StrLe(a, b) == Lex.StrLe(a[1..], b[1..])
  {
  }

  lemma EasyPrefix()
    ensures Lex.StrLe("easy", "easy-medium")
    ensures !Lex.StrLe("easy-medium", "easy")
  {
    StrLeStep("easy", "easy-medium");
    StrLeStep("asy", "asy-medium");
    StrLeStep("sy", "sy-medium");
    StrLeStep("y", "y-medium");
    assert "easy"[1..] == "asy" && "easy-medium"[1..] == "asy-medium";
    assert "asy"[1..] == "sy" && "asy-medium"[1..] == "sy-medium";
    assert "sy"[1..] == "y" && "sy-medium"[1..] == "y-medium";
    assert "y"[1..] == "" && "y-medium"[1..] == "-medium";
  }

  /**
   * Sorting the stored names orders the difficulties cakewalk, easy,
   * easy-medium, hard, medium.
   */
  lemma DifficultyOrderIsNameOrder(a: Difficulty, b: Difficulty)
    ensures DifficultyLe(a, b) <==> SortKey(a) <= SortKey(b)
  {
    EasyPrefix();
    if a == b {
      Lex.StrLeTotal(DifficultyName(a), DifficultyName(b));
    }
  }

  /** In that order "hard" comes before "medium", the reverse of the scale. */
  lemma HardSortsBeforeMedium()
    ensures DifficultyLe(Hard, Medium) && !DifficultyLe(Medium, Hard)
    ensures ScaleRank(Medium) < ScaleRank(Hard)
  {
    DifficultyOrderIsNameOrder(Hard, Medium);
    DifficultyOrderIsNameOrder(Medium, Hard);
  }

  /** `sort({ difficulty: 1, createdAt: 1 })`. */
  predicate QuestionLe(a: Question, b: Question) {
    (DifficultyLe(a.difficulty, b.difficulty) && a.difficulty != b.difficulty)
    || (a.difficulty == b.difficulty && a.createdAt <= b.createdAt)
  }

  /** `sort({ createdAt: 1 })`. */
  predicate CreatedLe(a: Question, b: Question) {
    a.createdAt <= b.createdAt
  }

  lemma QuestionLeByKey(a: Question, b: Question)
    ensures QuestionLe(a, b) <==>
      SortKey(a.difficulty) < SortKey(b.difficulty)
      || (a.difficulty == b.difficulty && a.createdAt <= b.createdAt)
  {
    DifficultyOrderIsNameOrder(a.difficulty, b.difficulty);
  }

  lemma QuestionLeTotalPreorder()
    ensures Seqs.TotalPreorder(QuestionLe)
  {
    forall a: Question, b: Question ensures QuestionLe(a, b) || QuestionLe(b, a) {
      QuestionLeByKey(a, b);
      QuestionLeByKey(b, a);
    }
    forall a: Question, b: Question, c: Question | QuestionLe(a, b) && QuestionLe(b, c)
      ensures QuestionLe(a, c)
    {
      QuestionLeByKey(a, b);
      QuestionLeByKey(b, c);
      QuestionLeByKey(a, c);
    }
  }

  lemma CreatedLeTotalPreorder()
    ensures Seqs.TotalPreorder(CreatedLe)
  {
  }

  function First(s: seq<Question>): (r: Option<Question>)
    ensures r.None? <==> s == []
    ensures r.Some? ==> r.value == s[0]
  {
    if s == [] then None else Some(s[0])
  }

  // ---------------------------------------------------------------------------
  // The weakest topic

  predicate Eligible(ts: TopicStat) {
    ts.totalQuestions >= 1
  }

  /** The entry the scan settles on: eligible, and strictly fewer solves than every earlier choice. */
  function WeakestIndex(stats: seq<TopicStat>): (w: Option<nat>)
    ensures w.Some? ==> w.value < |stats|
  {
    if stats == [] then None
    else
      var w := WeakestIndex(stats[..|stats| - 1]);
      var t := stats[|stats| - 1];
      if Eligible(t) && (w.None? || t.solvedQuestions < stats[w.value].solvedQuestions) then Some(|stats| - 1)
      else w
  }

  function WeakestTopicOf(stats: seq<TopicStat>): Option<string> {
    var w := WeakestIndex(stats);
    if w.Some? then Some(stats[w.value].topic) else None
  }

  /**
   * The weakest topic is the eligible entry (total questions at least 1) with
   * the smallest solved count, the earliest one on ties; there is none exactly
   * when no entry is eligible.
   */
  lemma {:induction false} WeakestIndexSpec(stats: seq<TopicStat>)
    ensures var w := WeakestIndex(stats);
      && (w.None? <==> forall j :: 0 <= j < |stats| ==> !Eligible(stats[j]))
      && (w.Some? ==>
            && Eligible(stats[w.value])
            && (forall j :: 0 <= j < w.value && Eligible(stats[j]) ==> stats[j].solvedQuestions > stats[w.value].solvedQuestions)
            && (forall j :: w.value < j < |stats| && Eligible(stats[j]) ==> stats[j].solvedQuestions >= stats[w.value].solvedQuestions))
  {
    if stats != [] {
      var init := stats[..|stats| - 1];
      WeakestIndexSpec(init);
      assert forall j :: 0 <= j < |init| ==> init[j] == stats[j];
    }
  }

  /** The scan of the topic statistics, keeping the smallest solved count seen (initially infinite). */
  method WeakestTopic(stats: seq<TopicStat>) returns (topic: Option<string>)
    ensures topic == WeakestTopicOf(stats)
  {
    topic := None;
    var minSolved: Option<int> := None;
    for i := 0 to |stats|
      invariant var w := WeakestIndex(stats[..i]);
        && topic == (if w.Some? then Some(stats[w.value].topic) else None)
        && minSolved == (if w.Some? then Some(stats[w.value].solvedQuestions) else None)
    {
      assert stats[..i + 1][..i] == stats[..i];
      var ts := stats[i];
      if ts.totalQuestions >= 1 && (minSolved.None? || ts.solvedQuestions < minSolved.value) {
        minSolved := Some(ts.solvedQuestions);
        topic := Some(ts.topic);
      }
    }
    assert stats[..|stats|] == stats;
  }

  /**
   * Solves alone never make a topic eligible: statistics built only by first
   * solves have total questions 0 everywhere, so the scan finds nothing and
   * the selector always falls back to a random tag.
   */
  lemma SolveOnlyStatsNeverEligible(tags: seq<string>)
    ensures WeakestIndex(Topics.AddSolvedTags([], tags)).None?
  {
    Topics.AddSolvedTagsShape([], tags);
    WeakestIndexSpec(Topics.AddSolvedTags([], tags));
  }

  // ---------------------------------------------------------------------------
  // The fallback topic

  /** The tags of the active questions, in catalog order, repeats included. */
  function ActiveTagList(qs: seq<Question>): (r: seq<string>)
    ensures forall t :: t in r <==> exists q :: q in qs && q.isActive && t in q.tags
  {
    if qs == [] then []
    else
      assert forall q :: q in qs <==> q == qs[0] || q in qs[1..];
      (if qs[0].isActive then qs[0].tags else []) + ActiveTagList(qs[1..])
  }

  function Distinct(s: seq<string>): (r: seq<string>)
    ensures forall x :: x in r <==> x in s
    ensures forall i, j :: 0 <= i < j < |r| ==> r[i] != r[j]
  {
    if s == [] then []
    else
      var init := s[..|s| - 1];
      var d := Distinct(init);
      assert s == init + [s[|s| - 1]];
      if s[|s| - 1] in d then d else d + [s[|s| - 1]]
  }

  /** `Question.distinct('tags', { isActive: true })`. */
  function DistinctActiveTags(qs: seq<Question>): (r: seq<string>)
    ensures forall t :: t in r <==> exists q :: q in qs && q.isActive && t in q.tags
  {
    Distinct(ActiveTagList(qs))
  }

  /** A selected topic that is absent or the empty string counts as not selected. */
  predicate Truthy(t: Option<string>) {
    t.Some? && t.value != ""
  }

  /** The topic of the selection: the weakest topic, or else a random tag of an active question. */
  function ChosenTopic(stats: seq<TopicStat>, qs: seq<Question>, draw: Draw): (t: Option<string>)
    ensures t.Some? ==> t == WeakestTopicOf(stats) || t.value in DistinctActiveTags(qs)
  {
    var w := WeakestTopicOf(stats);
    if Truthy(w) then w
    else
      var tags := DistinctActiveTags(qs);
      if |tags| == 0 then None else Some(tags[Pick(|tags|, draw.topicPick)])
  }

  /**
   * The topic is the weakest one when that is a non-empty name; otherwise it
   * is a tag of some active question, and there is none only when no active
   * question carries any tag.
   */
  lemma ChosenTopicSpec(stats: seq<TopicStat>, qs: seq<Question>, draw: Draw)
    ensures var t := ChosenTopic(stats, qs, draw);
      && (Truthy(WeakestTopicOf(stats)) ==> t == WeakestTopicOf(stats))
      && (!Truthy(WeakestTopicOf(stats)) && t.Some? ==> exists q :: q in qs && q.isActive && t.value in q.tags)
      && (t.None? ==> forall q, x :: q in qs && q.isActive ==> x !in q.tags)
  {
    var t := ChosenTopic(stats, qs, draw);
    if !Truthy(WeakestTopicOf(stats)) && t.Some? {
      assert t.value in DistinctActiveTags(qs);
      assert t.value in ActiveTagList(qs);
    }
    if t.None? {
      var tags := DistinctActiveTags(qs);
      assert tags == [];
      forall q, x | q in qs && q.isActive ensures x !in q.tags {
        assert x in q.tags ==> x in tags;
      }
    }
  }

  // ---------------------------------------------------------------------------
  // Candidates and the pick

  predicate IsCandidate(q: Question, topic: string, solved: set<QuestionId>) {
    q.isActive && topic in q.tags && q.id !in solved
  }

  /** The active questions tagged with the topic that the student has not solved, in question order. */
  function Candidates(qs: seq<Question>, topic: string, solved: set<QuestionId>): (r: seq<Question>)
    ensures forall q :: q in r <==> q in qs && IsCandidate(q, topic, solved)
    ensures Seqs.Sorted(r, QuestionLe)
  {
    QuestionLeTotalPreorder();
    Seqs.Sort(Seqs.Filter(qs, (q: Question) => IsCandidate(q, topic, solved)), QuestionLe)
  }

  /** Every active question the student has not solved, in question order. */
  function UnsolvedActive(qs: seq<Question>, solved: set<QuestionId>): (r: seq<Question>)
    ensures forall q :: q in r <==> q in qs && q.isActive && q.id !in solved
    ensures Seqs.Sorted(r, QuestionLe)
  {
    QuestionLeTotalPreorder();
    Seqs.Sort(Seqs.Filter(qs, (q: Question) => q.isActive && q.id !in solved), QuestionLe)
  }

  /** The active cakewalk questions, oldest first. */
  function Cakewalks(qs: seq<Question>): (r: seq<Question>)
    ensures forall q :: q in r <==> q in qs && q.isActive && q.difficulty == Cakewalk
    ensures Seqs.Sorted(r, CreatedLe)
  {
    CreatedLeTotalPreorder();
    Seqs.Sort(Seqs.Filter(qs, (q: Question) => q.isActive && q.difficulty == Cakewalk), CreatedLe)
  }

  /** The candidates sharing the first candidate's difficulty. */
  function LowestGroup(cands: seq<Question>): (r: seq<Question>)
    requires |cands| > 0
    ensures |r| > 0
    ensures forall q :: q in r <==> q in cands && q.difficulty == cands[0].difficulty
  {
    var r := Seqs.Filter(cands, (q: Question) => q.difficulty == cands[0].difficulty);
    assert cands[0] in r;
    r
  }

  function TopicCandidates(stats: seq<TopicStat>, qs: seq<Question>, solved: set<QuestionId>, draw: Draw): seq<Question> {
    var topic := ChosenTopic(stats, qs, draw);
    if topic.Some? then Candidates(qs, topic.value, solved) else []
  }

  /** The whole selection for one student, given the two random draws; whatever the branch, an active catalog question. */
  function Selection(stats: seq<TopicStat>, qs: seq<Question>, solved: set<QuestionId>, draw: Draw): (r: Option<Question>)
    ensures r.Some? ==> r.value in qs && r.value.isActive
  {
    if |stats| == 0 then First(Cakewalks(qs))
    else
      var cands := TopicCandidates(stats, qs, solved, draw);
      if |cands| == 0 then First(UnsolvedActive(qs, solved))
      else
        var group := LowestGroup(cands);
        Some(group[Pick(|group|, draw.groupPick)])
  }

  /** The selection: the scan for the weakest topic, then the queries and the pick. */
  method SelectQuestion(stats: seq<TopicStat>, qs: seq<Question>, solved: set<QuestionId>, draw: Draw)
    returns (r: Option<Question>)
    ensures r == Selection(stats, qs, solved, draw)
  {
    if |stats| == 0 {
      return First(Cakewalks(qs));
    }
    var topic := WeakestTopic(stats);
    if !Truthy(topic) {
      var tags := DistinctActiveTags(qs);
      topic := if |tags| == 0 then None else Some(tags[Pick(|tags|, draw.topicPick)]);
    }
    var cands := if topic.Some? then Candidates(qs, topic.value, solved) else [];
    if |cands| == 0 {
      return First(UnsolvedActive(qs, solved));
    }
    var group := LowestGroup(cands);
    r := Some(group[Pick(|group|, draw.groupPick)]);
  }

  /**
   * A student with no topic statistics gets the oldest active cakewalk
   * question, and nothing only when there is no active cakewalk question.
   */
  lemma NewStudentGetsOldestCakewalk(stats: seq<TopicStat>, qs: seq<Question>, solved: set<QuestionId>, draw: Draw)
    requires |stats| == 0
    ensures var r := Selection(stats, qs, solved, draw);
      && (r.None? <==> forall q :: q in qs ==> !(q.isActive && q.difficulty == Cakewalk))
      && (r.Some? ==>
            && r.value in qs && r.value.isActive && r.value.difficulty == Cakewalk
            && forall q :: q in qs && q.isActive && q.difficulty == Cakewalk ==> r.value.createdAt <= q.createdAt)
  {
    var c := Cakewalks(qs);
    if c != [] {
      forall q | q in qs && q.isActive && q.difficulty == Cakewalk ensures c[0].createdAt <= q.createdAt {
        var k :| 0 <= k < |c| && c[k] == q;
        if k > 0 {
          assert CreatedLe(c[0], c[k]);
        }
      }
    } else {
      assert forall q :: q in qs && q.isActive && q.difficulty == Cakewalk ==> q in c;
    }
  }

  /**
   * With candidates in the chosen topic, the result is one of them (active,
   * tagged with the topic, not solved) with the first candidate's difficulty,
   * which is the lowest difficulty among the candidates.
   */
  lemma PickFromLowestDifficulty(stats: seq<TopicStat>, qs: seq<Question>, solved: set<QuestionId>, draw: Draw)
    requires |stats| > 0 && TopicCandidates(stats, qs, solved, draw) != []
    ensures var r := Selection(stats, qs, solved, draw); var cands := TopicCandidates(stats, qs, solved, draw);
      var topic := ChosenTopic(stats, qs, draw);
      && topic.Some?
      && r.Some? && r.value in cands && r.value in qs
      && IsCandidate(r.value, topic.value, solved)
      && r.value.difficulty == cands[0].difficulty
      && forall c :: c in cands ==> DifficultyLe(r.value.difficulty, c.difficulty)
  {
    var cands := TopicCandidates(stats, qs, solved, draw);
    var r := Selection(stats, qs, solved, draw);
    var group := LowestGroup(cands);
    assert r.value in group;
    forall c | c in cands ensures DifficultyLe(r.value.difficulty, c.difficulty) {
      var k :| 0 <= k < |cands| && cands[k] == c;
      DifficultyOrderIsNameOrder(cands[0].difficulty, c.difficulty);
      if k > 0 {
        assert QuestionLe(cands[0], cands[k]);
        QuestionLeByKey(cands[0], cands[k]);
      }
    }
  }

  /**
   * With no candidates in the chosen topic, the result does not depend on any
   * random draw: it is the first active unsolved question in question order,
   * and nothing only when every active question is solved.
   */
  lemma FallbackIsFirstUnsolved(stats: seq<TopicStat>, qs: seq<Question>, solved: set<QuestionId>, draw: Draw)
    requires |stats| > 0 && TopicCandidates(stats, qs, solved, draw) == []
    ensures var r := Selection(stats, qs, solved, draw);
      && r == First(UnsolvedActive(qs, solved))
      && (r.None? <==> forall q :: q in qs && q.isActive ==> q.id in solved)
      && (r.Some? ==>
            && r.value in qs && r.value.isActive && r.value.id !in solved
            && forall q :: q in qs && q.isActive && q.id !in solved ==> QuestionLe(r.value, q))
  {
    var u := UnsolvedActive(qs, solved);
    if u != [] {
      QuestionLeTotalPreorder();
      forall q | q in qs && q.isActive && q.id !in solved ensures QuestionLe(u[0], q) {
        var k :| 0 <= k < |u| && u[k] == q;
        if k == 0 {
          assert QuestionLe(q, q) || QuestionLe(q, q);
        }
      }
    } else {
      assert forall q :: q in qs && q.isActive && q.id !in solved ==> q in u;
    }
  }

  /** Once the student has topic statistics, the result is an active catalog question the student has not solved. */
  lemma NeverASolvedQuestion(stats: seq<TopicStat>, qs: seq<Question>, solved: set<QuestionId>, draw: Draw)
    requires |stats| > 0
    ensures var r := Selection(stats, qs, solved, draw);
      r.Some? ==> r.value in qs && r.value.isActive && r.value.id !in solved
  {
    if TopicCandidates(stats, qs, solved, draw) == [] {
      FallbackIsFirstUnsolved(stats, qs, solved, draw);
    } else {
      PickFromLowestDifficulty(stats, qs, solved, draw);
    }
  }

  // ---------------------------------------------------------------------------
  // Assignment and visibility

  /** The assignment step of the batch: a pick replaces the assignment, no pick leaves it. */
  function Assign(u: User, pick: Option<Question>, day: Day): (r: User)
    ensures r == u.(questionOfTheDay := r.questionOfTheDay, questionOfTheDayDate := r.questionOfTheDayDate)
    ensures pick.Some? ==> r.questionOfTheDay == Some(pick.value.id) && r.questionOfTheDayDate == Some(day)
  {
    if pick.Some? then u.(questionOfTheDay := Some(pick.value.id), questionOfTheDayDate := Some(day)) else u
  }

  /**
   * What the dashboard shows: the assigned question, only when a question and
   * a date are both set and the date is today, and only while the question
   * is still in the catalog.
   */
  function VisibleQuestionOfTheDay(u: User, qs: seq<Question>, today: Day): (r: Option<Question>)
    ensures r.Some? ==>
      && u.questionOfTheDay == Some(r.value.id)
      && u.questionOfTheDayDate == Some(today)
      && r.value in qs
    ensures r.None? ==>
      || u.questionOfTheDay.None?
      || u.questionOfTheDayDate != Some(today)
      || forall q :: q in qs ==> q.id != u.questionOfTheDay.value
  {
    if u.questionOfTheDay.Some? && u.questionOfTheDayDate.Some? && u.questionOfTheDayDate.value == today then
      match FindQuestion(qs, u.questionOfTheDay.value)
      case Some(i) => Some(qs[i])
      case None => None
    else None
  }

  /**
   * An assignment made for a day is shown on exactly that day: the picked
   * question on the day itself, nothing on any other day.
   */
  lemma AssignmentShownOnItsDay(u: User, qs: seq<Question>, q: Question, day: Day, today: Day)
    requires UniqueQuestionIds(qs) && q in qs
    ensures VisibleQuestionOfTheDay(Assign(u, Some(q), day), qs, today) == if today == day then Some(q) else None
  {
    FindStoredQuestion(qs, q);
  }

  /**
   * The selection reads only the topic statistics, so assigning again for the
   * same day with the same draws gives the same assignment: a re-run only
   * overwrites the pending pick.
   */
  lemma ReassignSameDay(u: User, qs: seq<Question>, solved: set<QuestionId>, draw: Draw, day: Day)
    ensures var once := Assign(u, Selection(u.topicStats, qs, solved, draw), day);
      Assign(once, Selection(once.topicStats, qs, solved, draw), day) == once
  {
  }
}
