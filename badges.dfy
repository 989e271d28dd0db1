/**
 * The badge evaluator: one pass over the active badges that grants each badge
 * the student does not hold yet and whose threshold the student's current
 * totals meet, adding the badge's bonus to the student's points.
 */
module Badges {
  import opened Wrappers
  import opened Records
  import Seqs

  function ActiveBadges(bs: seq<Badge>): seq<Badge> {
    Seqs.Filter(bs, (b: Badge) => b.isActive)
  }

  /**
   * The threshold test: solved questions for `problems_solved`, the current
   * streak for `streak` and `daily_activity`, never for `contest_participation`.
   * The timeframe is not consulted.
   */
  predicate Qualifies(b: Badge, solvedCount: nat, currentStreak: int)
    ensures Qualifies(b, solvedCount, currentStreak) ==> b.criteria.kind != ContestParticipation
  {
    match b.criteria.kind
    case ProblemsSolved => solvedCount >= b.criteria.value
    case StreakCriteria => currentStreak >= b.criteria.value
    case DailyActivity => currentStreak >= b.criteria.value
    case ContestParticipation => false
  }

  function HeldIds(held: seq<EarnedBadge>): set<BadgeId> {
    set e | e in held :: e.badgeId
  }

  function Ids(bs: seq<Badge>): set<BadgeId> {
    set b | b in bs :: b.id
  }

  /**
   * The badges one pass grants, in pass order. `held` grows as the pass goes,
   * so a badge id seen twice is granted at most once; the solved count and the
   * streak are read once and do not change during the pass.
   */
  function Grants(bs: seq<Badge>, held: set<BadgeId>, solvedCount: nat, currentStreak: int): (g: seq<Badge>)
    ensures Ids(g) !! held
  {
    if bs == [] then []
    else
      var g := Grants(bs[..|bs| - 1], held, solvedCount, currentStreak);
      var b := bs[|bs| - 1];
      if b.id !in held + Ids(g) && Qualifies(b, solvedCount, currentStreak) then g + [b] else g
  }

  function Earn(g: seq<Badge>, day: Day): (r: seq<EarnedBadge>)
    ensures |r| == |g|
  {
    if g == [] then [] else Earn(g[..|g| - 1], day) + [EarnedBadge(g[|g| - 1].id, day)]
  }

  function Bonus(g: seq<Badge>): int {
    if g == [] then 0 else Bonus(g[..|g| - 1]) + g[|g| - 1].points
  }

  function BadgeLog(u: UserId, g: seq<Badge>, day: Day): (r: seq<LogEntry>)
    ensures |r| == |g|
    ensures forall e :: e in r ==> e.student == u && e.activityDate == day
  {
    if g == [] then [] else BadgeLog(u, g[..|g| - 1], day) + [LogEntry(u, BadgeEarned(g[|g| - 1].id, g[|g| - 1].points), day)]
  }

  /** The student after the grants: each one appended as (id, day), and the bonuses added. */
  function Award(u: User, g: seq<Badge>, day: Day): User {
    u.(badges := u.badges + Earn(g, day), totalPoints := u.totalPoints + Bonus(g))
  }

  /** One more badge in the pass: granted exactly when it is not held yet and qualifies. */
  lemma GrantsStep(bs: seq<Badge>, k: nat, held: set<BadgeId>, solvedCount: nat, currentStreak: int)
    requires k < |bs|
    ensures var g := Grants(bs[..k], held, solvedCount, currentStreak);
      Grants(bs[..k + 1], held, solvedCount, currentStreak) ==
        if bs[k].id !in held + Ids(g) && Qualifies(bs[k], solvedCount, currentStreak) then g + [bs[k]] else g
  {
    assert bs[..k + 1][..k] == bs[..k];
  }

  /** Granting one more badge appends one earned entry, one bonus and one log entry. */
  lemma AwardStep(u: UserId, g: seq<Badge>, b: Badge, day: Day)
    ensures Earn(g + [b], day) == Earn(g, day) + [EarnedBadge(b.id, day)]
    ensures Bonus(g + [b]) == Bonus(g) + b.points
    ensures BadgeLog(u, g + [b], day) == BadgeLog(u, g, day) + [LogEntry(u, BadgeEarned(b.id, b.points), day)]
  {
    assert (g + [b])[..|g|] == g;
  }

  lemma {:induction false} EarnIds(g: seq<Badge>, day: Day)
    ensures HeldIds(Earn(g, day)) == Ids(g)
  {
    if g != [] {
      EarnIds(g[..|g| - 1], day);
      var last := g[|g| - 1];
      assert g == g[..|g| - 1] + [last];
      assert Ids(g) == Ids(g[..|g| - 1]) + {last.id};
    }
  }

  lemma HeldAfterAward(held: seq<EarnedBadge>, g: seq<Badge>, day: Day)
    ensures HeldIds(held + Earn(g, day)) == HeldIds(held) + Ids(g)
  {
    EarnIds(g, day);
    assert forall e :: e in held + Earn(g, day) <==> e in held || e in Earn(g, day);
  }

  /** Every grant is one of the badges, was not held before, meets its threshold, and no id is granted twice. */
  lemma {:induction false} GrantsSound(bs: seq<Badge>, held: set<BadgeId>, solvedCount: nat, currentStreak: int)
    ensures var g := Grants(bs, held, solvedCount, currentStreak);
      && (forall b :: b in g ==> b in bs && b.id !in held && Qualifies(b, solvedCount, currentStreak))
      && (forall i, j :: 0 <= i < j < |g| ==> g[i].id != g[j].id)
  {
    if bs != [] {
      var init := bs[..|bs| - 1];
      GrantsSound(init, held, solvedCount, currentStreak);
      assert forall b :: b in init ==> b in bs;
      var g := Grants(init, held, solvedCount, currentStreak);
      assert forall i :: 0 <= i < |g| ==> g[i].id in Ids(g);
    }
  }

  /** After the pass every badge whose threshold is met is held: the pass misses none. */
  lemma {:induction false} GrantsComplete(bs: seq<Badge>, held: set<BadgeId>, solvedCount: nat, currentStreak: int)
    ensures forall b :: b in bs && Qualifies(b, solvedCount, currentStreak) ==>
      b.id in held + Ids(Grants(bs, held, solvedCount, currentStreak))
  {
    if bs != [] {
      var init := bs[..|bs| - 1];
      GrantsComplete(init, held, solvedCount, currentStreak);
      var g := Grants(init, held, solvedCount, currentStreak);
      var g' := Grants(bs, held, solvedCount, currentStreak);
      assert Ids(g) <= Ids(g');
      assert bs == init + [bs[|bs| - 1]];
    }
  }

  /**
   * With distinct badge ids, a badge not held before the pass is granted by it
   * exactly when its threshold is met.
   */
  lemma GrantedIffQualifies(bs: seq<Badge>, held: set<BadgeId>, solvedCount: nat, currentStreak: int, b: Badge)
    requires UniqueBadgeIds(bs) && b in bs && b.id !in held
    ensures b in Grants(bs, held, solvedCount, currentStreak) <==> Qualifies(b, solvedCount, currentStreak)
  {
    var g := Grants(bs, held, solvedCount, currentStreak);
    GrantsSound(bs, held, solvedCount, currentStreak);
    if Qualifies(b, solvedCount, currentStreak) {
      GrantsComplete(bs, held, solvedCount, currentStreak);
      var c :| c in g && c.id == b.id;
      var i :| 0 <= i < |bs| && bs[i] == b;
      var j :| 0 <= j < |bs| && bs[j] == c;
      assert i == j;
    }
  }

  /** Re-running the pass with the same totals after its grants are held grants nothing. */
  lemma {:induction false} GrantsIdempotent(bs: seq<Badge>, held: set<BadgeId>, solvedCount: nat, currentStreak: int)
    ensures Grants(bs, held + Ids(Grants(bs, held, solvedCount, currentStreak)), solvedCount, currentStreak) == []
  {
    var all := held + Ids(Grants(bs, held, solvedCount, currentStreak));
    GrantsComplete(bs, held, solvedCount, currentStreak);
    NothingLeftToGrant(bs, all, solvedCount, currentStreak);
  }

  lemma {:induction false} NothingLeftToGrant(bs: seq<Badge>, held: set<BadgeId>, solvedCount: nat, currentStreak: int)
    requires forall b :: b in bs && Qualifies(b, solvedCount, currentStreak) ==> b.id in held
    ensures Grants(bs, held, solvedCount, currentStreak) == []
  {
    if bs != [] {
      var init := bs[..|bs| - 1];
      assert forall b :: b in init ==> b in bs;
      NothingLeftToGrant(init, held, solvedCount, currentStreak);
    }
  }

  /** The bonus added to the points is what the badge log entries credit. */
  lemma {:induction false} BadgeLogCredits(u: UserId, g: seq<Badge>, day: Day)
    ensures LoggedPoints(BadgeLog(u, g, day), u) == Bonus(g)
  {
    if g != [] {
      var init := g[..|g| - 1];
      BadgeLogCredits(u, init, day);
      var e := LogEntry(u, BadgeEarned(g[|g| - 1].id, g[|g| - 1].points), day);
      LoggedPointsAppend(BadgeLog(u, init, day), [e], u);
      assert LoggedPoints([e], u) == g[|g| - 1].points by {
        assert [e][1..] == [];
      }
    }
  }

  /** Badge log entries for one student credit nothing to anyone else. */
  lemma {:induction false} BadgeLogOthers(u: UserId, g: seq<Badge>, day: Day, v: UserId)
    requires v != u
    ensures LoggedPoints(BadgeLog(u, g, day), v) == 0
  {
    if g != [] {
      var init := g[..|g| - 1];
      BadgeLogOthers(u, init, day, v);
      var e := LogEntry(u, BadgeEarned(g[|g| - 1].id, g[|g| - 1].points), day);
      LoggedPointsAppend(BadgeLog(u, init, day), [e], v);
      assert [e][1..] == [];
    }
  }
}
