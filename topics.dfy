/**
 * The per-topic statistics a first solve updates: for every tag of the solved
 * question, find the student's entry for that tag (or create one with zero
 * totals) and add one to its solved count.
 */
module Topics {
  import opened Wrappers
  import opened Records
  import Seqs

  function FindTopic(stats: seq<TopicStat>, tag: string): Option<nat> {
    Seqs.FirstIndex(stats, (ts: TopicStat) => ts.topic == tag)
  }

  /** The solved count recorded for `topic` (the first entry for it), 0 when there is none. */
  function SolvedOf(stats: seq<TopicStat>, topic: string): int {
    match FindTopic(stats, topic)
    case Some(i) => stats[i].solvedQuestions
    case None => 0
  }

  function CountOf(tags: seq<string>, t: string): nat {
    if tags == [] then 0 else (if tags[|tags| - 1] == t then 1 else 0) + CountOf(tags[..|tags| - 1], t)
  }

  /** One tag of a first solve: the existing entry, or a new one with zero totals, gains one solve. */
  function AddSolvedTag(stats: seq<TopicStat>, tag: string): (r: seq<TopicStat>)
    ensures |stats| <= |r| <= |stats| + 1
  {
    match FindTopic(stats, tag)
    case Some(i) => stats[i := stats[i].(solvedQuestions := stats[i].solvedQuestions + 1)]
    case None => stats + [TopicStat(tag, 0, 1, 0)]
  }

  /**
   * The same step as the source writes it: the new entry is pushed into the
   * document array as a plain object, the array stores a converted copy, and
   * the increment that follows lands on the plain object, not on the copy.
   */
  function AddSolvedTagAsWritten(stats: seq<TopicStat>, tag: string): (r: seq<TopicStat>)
    ensures |stats| <= |r| <= |stats| + 1
  {
    match FindTopic(stats, tag)
    case Some(i) => stats[i := stats[i].(solvedQuestions := stats[i].solvedQuestions + 1)]
    case None => stats + [TopicStat(tag, 0, 0, 0)]
  }

  /** As written, the solve that creates a topic entry is not counted in it. */
  lemma NewTopicSolveLost(stats: seq<TopicStat>, tag: string)
    requires FindTopic(stats, tag).None?
    ensures SolvedOf(AddSolvedTagAsWritten(stats, tag), tag) == 0
    ensures SolvedOf(AddSolvedTag(stats, tag), tag) == 1
  {
    var r := AddSolvedTagAsWritten(stats, tag);
    assert r[|stats|].topic == tag;
    var c := AddSolvedTag(stats, tag);
    assert c[|stats|].topic == tag;
  }

  /** The `forEach` over all tags as the source writes it, each step with the lost increment. */
  function AddSolvedTagsAsWritten(stats: seq<TopicStat>, tags: seq<string>): (r: seq<TopicStat>)
    ensures |stats| <= |r| <= |stats| + |tags|
  {
    if tags == [] then stats
    else AddSolvedTagAsWritten(AddSolvedTagsAsWritten(stats, tags[..|tags| - 1]), tags[|tags| - 1])
  }

  /**
   * One step as written: the solve counts only when the student already has
   * an entry for the tag; the step leaves an entry for the tag either way.
   */
  lemma AddSolvedTagAsWrittenCount(stats: seq<TopicStat>, tag: string, t: string)
    ensures SolvedOf(AddSolvedTagAsWritten(stats, tag), t) ==
      SolvedOf(stats, t) + (if tag == t && FindTopic(stats, tag).Some? then 1 else 0)
    ensures FindTopic(AddSolvedTagAsWritten(stats, tag), t).Some? <==> FindTopic(stats, t).Some? || tag == t
  {
    var r := AddSolvedTagAsWritten(stats, tag);
    var old_t := FindTopic(stats, t);
    var new_t := FindTopic(r, t);
    match FindTopic(stats, tag)
    case Some(i) =>
      assert forall j :: 0 <= j < |r| ==> r[j].topic == stats[j].topic;
      if old_t.Some? {
        assert new_t == old_t;
      } else {
        assert new_t.None?;
      }
    case None =>
      assert forall j :: 0 <= j < |stats| ==> r[j] == stats[j];
      if old_t.Some? {
        assert new_t == old_t;
      } else if tag == t {
        assert r[|stats|].topic == t;
        assert new_t == Some(|stats|);
      } else {
        assert new_t.None?;
      }
  }

  /**
   * A first solve as written: a topic the student already had gains one solve
   * per occurrence of its tag; a topic new to the student loses the solve of
   * the occurrence that creates its entry, so it holds one solve fewer.
   */
  lemma {:induction false} AddSolvedTagsAsWrittenCount(stats: seq<TopicStat>, tags: seq<string>, t: string)
    ensures SolvedOf(AddSolvedTagsAsWritten(stats, tags), t) ==
      SolvedOf(stats, t) + CountOf(tags, t) - (if FindTopic(stats, t).None? && CountOf(tags, t) > 0 then 1 else 0)
    ensures FindTopic(AddSolvedTagsAsWritten(stats, tags), t).Some? <==> FindTopic(stats, t).Some? || CountOf(tags, t) > 0
  {
    if tags != [] {
      var init := tags[..|tags| - 1];
      AddSolvedTagsAsWrittenCount(stats, init, t);
      AddSolvedTagAsWrittenCount(AddSolvedTagsAsWritten(stats, init), tags[|tags| - 1], t);
      AddSolvedTagAsWrittenCount(AddSolvedTagsAsWritten(stats, init), tags[|tags| - 1], tags[|tags| - 1]);
    }
  }

  /** The update as written and the intended one differ exactly by the lost solve of each new topic. */
  lemma AsWrittenLosesNewTopicSolve(stats: seq<TopicStat>, tags: seq<string>, t: string)
    ensures SolvedOf(AddSolvedTagsAsWritten(stats, tags), t) ==
      SolvedOf(AddSolvedTags(stats, tags), t) - (if FindTopic(stats, t).None? && CountOf(tags, t) > 0 then 1 else 0)
  {
    AddSolvedTagsAsWrittenCount(stats, tags, t);
    AddSolvedTagsCount(stats, tags, t);
  }

  /** All tags of a solved question, in order (a tag listed twice is counted twice). */
  function AddSolvedTags(stats: seq<TopicStat>, tags: seq<string>): (r: seq<TopicStat>)
    ensures |stats| <= |r| <= |stats| + |tags|
  {
    if tags == [] then stats
    else AddSolvedTag(AddSolvedTags(stats, tags[..|tags| - 1]), tags[|tags| - 1])
  }

  /** The `forEach` over the question's tags, updating the statistics in turn. */
  method BumpTopicStats(stats: seq<TopicStat>, tags: seq<string>) returns (r: seq<TopicStat>)
    ensures r == AddSolvedTags(stats, tags)
  {
    r := stats;
    for k := 0 to |tags|
      invariant r == AddSolvedTags(stats, tags[..k])
    {
      assert tags[..k + 1][..k] == tags[..k];
      var found := FindTopic(r, tags[k]);
      if found.Some? {
        var i := found.value;
        r := r[i := r[i].(solvedQuestions := r[i].solvedQuestions + 1)];
      } else {
        r := r + [TopicStat(tags[k], 0, 1, 0)];
      }
    }
    assert tags[..|tags|] == tags;
  }

  /** Adding a solve for `tag` moves the solved count of `tag` up by one and leaves every other topic's. */
  lemma AddSolvedTagCount(stats: seq<TopicStat>, tag: string, t: string)
    ensures SolvedOf(AddSolvedTag(stats, tag), t) == SolvedOf(stats, t) + (if tag == t then 1 else 0)
  {
    var r := AddSolvedTag(stats, tag);
    var old_t := FindTopic(stats, t);
    var new_t := FindTopic(r, t);
    match FindTopic(stats, tag)
    case Some(i) =>
      assert forall j :: 0 <= j < |r| ==> r[j].topic == stats[j].topic;
      if old_t.Some? {
        assert new_t == old_t;
      } else {
        assert new_t.None?;
      }
    case None =>
      assert forall j :: 0 <= j < |stats| ==> r[j] == stats[j];
      if old_t.Some? {
        assert new_t == old_t;
      } else if tag == t {
        assert r[|stats|].topic == t;
        assert new_t == Some(|stats|);
      } else {
        assert new_t.None?;
      }
  }

  /** A first solve adds to each topic's solved count exactly the number of times the question carries that tag. */
  lemma {:induction false} AddSolvedTagsCount(stats: seq<TopicStat>, tags: seq<string>, t: string)
    ensures SolvedOf(AddSolvedTags(stats, tags), t) == SolvedOf(stats, t) + CountOf(tags, t)
  {
    if tags != [] {
      AddSolvedTagsCount(stats, tags[..|tags| - 1], t);
      AddSolvedTagCount(AddSolvedTags(stats, tags[..|tags| - 1]), tags[|tags| - 1], t);
    }
  }

  /**
   * The shape of the statistics after a first solve: existing entries keep
   * their place, topic and totals, and are untouched unless their topic is one
   * of the tags; entries added at the end are for tags of the question and
   * start with zero totals.
   */
  lemma {:induction false} AddSolvedTagsShape(stats: seq<TopicStat>, tags: seq<string>)
    ensures var r := AddSolvedTags(stats, tags);
      && (forall i :: 0 <= i < |stats| ==>
            && r[i].topic == stats[i].topic
            && r[i].totalQuestions == stats[i].totalQuestions
            && r[i].attemptedQuestions == stats[i].attemptedQuestions
            && (stats[i].topic !in tags ==> r[i] == stats[i]))
      && (forall i :: |stats| <= i < |r| ==>
            && r[i].topic in tags
            && r[i].totalQuestions == 0
            && r[i].attemptedQuestions == 0)
  {
    if tags != [] {
      var init := tags[..|tags| - 1];
      AddSolvedTagsShape(stats, init);
      var p := AddSolvedTags(stats, init);
      var last := tags[|tags| - 1];
      assert tags == init + [last];
      assert forall x :: x in init ==> x in tags;
      var r := AddSolvedTag(p, last);
      match FindTopic(p, last)
      case Some(i) =>
        assert forall j :: 0 <= j < |p| && j != i ==> r[j] == p[j];
      case None =>
        assert forall j :: 0 <= j < |p| ==> r[j] == p[j];
    }
  }
}
