/**
 * Ranking: the paginated leaderboard (students only, by points descending and
 * then name ascending, ranked by position) and the dashboard rank (one plus
 * the number of users with strictly more points).
 */
module Ranking {
  import opened Wrappers
  import opened Records
  import Lex
  import Seqs

  predicate IsStudent(u: User) {
    u.role == Student
  }

  /** The leaderboard order: more points first, then names in ascending string order. */
  predicate LeaderLe(a: User, b: User) {
    a.totalPoints > b.totalPoints || (a.totalPoints == b.totalPoints && Lex.StrLe(a.name, b.name))
  }

  lemma LeaderLeTotalPreorder()
    ensures Seqs.TotalPreorder(LeaderLe)
  {
    forall a: User, b: User ensures LeaderLe(a, b) || LeaderLe(b, a) {
      Lex.StrLeTotal(a.name, b.name);
    }
    forall a: User, b: User, c: User | LeaderLe(a, b) && LeaderLe(b, c) ensures LeaderLe(a, c) {
      if a.totalPoints == b.totalPoints == c.totalPoints {
        Lex.StrLeTransitive(a.name, b.name, c.name);
      }
    }
  }

  /** All students in leaderboard order. */
  function Ranked(users: seq<User>): (r: seq<User>)
    ensures multiset(r) == multiset(Seqs.Filter(users, IsStudent))
    ensures Seqs.Sorted(r, LeaderLe)
  {
    LeaderLeTotalPreorder();
    Seqs.Sort(Seqs.Filter(users, IsStudent), LeaderLe)
  }

  datatype Entry = Entry(id: UserId, name: string, totalPoints: int, currentStreak: int, maxStreak: int, rank: int)

  function Skip(page: int, limit: nat): int {
    (page - 1) * limit
  }

  /**
   * One page of a ranking: the entries from position `skip` on, at most
   * `limit` of them (a limit of 0 means no limit), each ranked by position.
   */
  function Page(ranked: seq<User>, skip: nat, limit: nat): (r: seq<Entry>)
    ensures |r| == if skip >= |ranked| then 0
                   else if limit == 0 || |ranked| - skip <= limit then |ranked| - skip
                   else limit
    ensures forall i :: 0 <= i < |r| ==>
      && skip + i < |ranked|
      && r[i] == Entry(ranked[skip + i].id, ranked[skip + i].name, ranked[skip + i].totalPoints,
                       ranked[skip + i].currentStreak, ranked[skip + i].maxStreak, skip + i + 1)
  {
    var start := if skip <= |ranked| then skip else |ranked|;
    var end := if limit == 0 || start + limit > |ranked| then |ranked| else start + limit;
    seq(end - start, i requires 0 <= i < end - start =>
      var u := ranked[start + i];
      Entry(u.id, u.name, u.totalPoints, u.currentStreak, u.maxStreak, skip + i + 1))
  }

  /**
   * One page of the leaderboard. The skip is (page - 1) * limit; a negative
   * skip is refused by the database.
   */
  function Leaderboard(users: seq<User>, page: int, limit: nat): (r: Result<seq<Entry>, Error>)
    ensures r.Failure? ==> r.error == InvalidPage
    ensures r.Success? ==> forall e :: e in r.value ==> e.rank >= 1
  {
    var skip := Skip(page, limit);
    if skip < 0 then Failure(InvalidPage) else Success(Page(Ranked(users), skip, limit))
  }

  lemma SkipOfValidPage(page: int, limit: nat)
    requires page >= 1
    ensures Skip(page, limit) >= 0
  {
    var k: nat := page - 1;
    assert Skip(page, limit) == k * limit;
  }

  /**
   * A page of a sorted ranking is in leaderboard order with distinct,
   * consecutive ranks, even when points tie.
   */
  lemma PageOrdered(ranked: seq<User>, skip: nat, limit: nat)
    requires Seqs.Sorted(ranked, LeaderLe)
    ensures var r := Page(ranked, skip, limit);
      forall i, j :: 0 <= i < j < |r| ==>
        && r[j].rank == r[i].rank + (j - i)
        && (r[i].totalPoints > r[j].totalPoints
            || (r[i].totalPoints == r[j].totalPoints && Lex.StrLe(r[i].name, r[j].name)))
  {
    var r := Page(ranked, skip, limit);
    forall i, j | 0 <= i < j < |r|
      ensures r[i].totalPoints > r[j].totalPoints
        || (r[i].totalPoints == r[j].totalPoints && Lex.StrLe(r[i].name, r[j].name))
    {
      assert LeaderLe(ranked[skip + i], ranked[skip + j]);
    }
  }

  /**
   * A leaderboard request is refused exactly when its skip is negative, never
   * for page 1 or later; otherwise it returns the page of the full ranking
   * that starts at the skip.
   */
  lemma LeaderboardPage(users: seq<User>, page: int, limit: nat)
    ensures Leaderboard(users, page, limit).Failure? <==> Skip(page, limit) < 0
    ensures page >= 1 ==> Leaderboard(users, page, limit).Success?
    ensures Skip(page, limit) >= 0 ==>
      Leaderboard(users, page, limit) == Success(Page(Ranked(users), Skip(page, limit), limit))
  {
    if page >= 1 {
      SkipOfValidPage(page, limit);
    }
  }

  /** The ranking holds exactly the students. */
  lemma RankedAreStudents(users: seq<User>)
    ensures forall u :: u in Ranked(users) <==> u in users && IsStudent(u)
  {
    var r := Ranked(users);
    var s := Seqs.Filter(users, IsStudent);
    assert forall u :: u in r <==> u in multiset(r);
    assert forall u :: u in s <==> u in multiset(s);
  }

  function CountAbove(users: seq<User>, points: int): (n: nat)
    ensures n <= |users|
  {
    |Seqs.Filter(users, (u: User) => u.totalPoints > points)|
  }

  /** The dashboard rank: one plus the number of users, of any role, with strictly more points. */
  function DashboardRank(users: seq<User>, points: int): (r: nat)
    ensures 1 <= r <= |users| + 1
  {
    1 + CountAbove(users, points)
  }

  lemma {:induction false} CountAboveMonotone(users: seq<User>, p: int, q: int)
    requires p >= q
    ensures CountAbove(users, p) <= CountAbove(users, q)
    ensures (exists u :: u in users && u.totalPoints == p) && p > q ==> CountAbove(users, p) < CountAbove(users, q)
  {
    if users != [] {
      var fp := (u: User) => u.totalPoints > p;
      var fq := (u: User) => u.totalPoints > q;
      CountAboveMonotone(users[1..], p, q);
      assert users == [users[0]] + users[1..];
      Seqs.FilterAppend([users[0]], users[1..], fp);
      Seqs.FilterAppend([users[0]], users[1..], fq);
      if (exists u :: u in users && u.totalPoints == p) && p > q {
        var u :| u in users && u.totalPoints == p;
        if u != users[0] {
          assert u in users[1..];
        }
      }
    }
  }

  /**
   * The dashboard rank never ranks more points worse: a user with more points
   * ranks at least as well, strictly better when someone holds those points,
   * and users with equal points share a rank.
   */
  lemma DashboardRankMonotone(users: seq<User>, p: int, q: int)
    requires p >= q
    ensures DashboardRank(users, p) <= DashboardRank(users, q)
    ensures (exists u :: u in users && u.totalPoints == p) && p > q ==> DashboardRank(users, p) < DashboardRank(users, q)
  {
    CountAboveMonotone(users, p, q);
  }

  lemma {:induction false} CountAboveNone(s: seq<User>, p: int)
    requires forall k :: 0 <= k < |s| ==> s[k].totalPoints <= p
    ensures CountAbove(s, p) == 0
  {
    if s != [] {
      CountAboveNone(s[1..], p);
    }
  }

  lemma {:induction false} CountAboveAll(s: seq<User>, p: int)
    requires forall k :: 0 <= k < |s| ==> s[k].totalPoints > p
    ensures CountAbove(s, p) == |s|
  {
    if s != [] {
      CountAboveAll(s[1..], p);
    }
  }

  lemma CountAboveSplit(s: seq<User>, i: nat, p: int)
    requires i <= |s|
    ensures CountAbove(s, p) == CountAbove(s[..i], p) + CountAbove(s[i..], p)
  {
    assert s == s[..i] + s[i..];
    Seqs.FilterAppend(s[..i], s[i..], (u: User) => u.totalPoints > p);
  }

  /** In leaderboard order the points never increase. */
  lemma SortedPoints(s: seq<User>, a: nat, b: nat)
    requires Seqs.Sorted(s, LeaderLe) && a <= b < |s|
    ensures s[a].totalPoints >= s[b].totalPoints
  {
    if a < b {
      assert LeaderLe(s[a], s[b]);
    }
  }

  /** Nobody from position i on has more points than the user at position i. */
  lemma CountAboveTail(s: seq<User>, i: nat)
    requires Seqs.Sorted(s, LeaderLe) && i < |s|
    ensures CountAbove(s[i..], s[i].totalPoints) == 0
  {
    forall k | 0 <= k < |s[i..]| ensures s[i..][k].totalPoints <= s[i].totalPoints {
      SortedPoints(s, i, i + k);
    }
    CountAboveNone(s[i..], s[i].totalPoints);
  }

  /** Everybody before position i has more points when position i - 1 has more. */
  lemma CountAboveHead(s: seq<User>, i: nat)
    requires Seqs.Sorted(s, LeaderLe) && 0 < i < |s| && s[i - 1].totalPoints > s[i].totalPoints
    ensures CountAbove(s[..i], s[i].totalPoints) == i
  {
    forall k | 0 <= k < |s[..i]| ensures s[..i][k].totalPoints > s[i].totalPoints {
      SortedPoints(s, k, i - 1);
    }
    CountAboveAll(s[..i], s[i].totalPoints);
  }

  lemma CountAboveSorted(s: seq<User>, i: nat)
    requires Seqs.Sorted(s, LeaderLe) && i < |s|
    ensures CountAbove(s, s[i].totalPoints) <= i
    ensures (i == 0 || s[i - 1].totalPoints > s[i].totalPoints) ==> CountAbove(s, s[i].totalPoints) == i
  {
    CountAboveSplit(s, i, s[i].totalPoints);
    CountAboveTail(s, i);
    if i > 0 && s[i - 1].totalPoints > s[i].totalPoints {
      CountAboveHead(s, i);
    }
  }

  /**
   * The two ranks agree on students: counted over the students, the dashboard
   * rank of the student at leaderboard position i (rank i + 1 on the first
   * page) is at most i + 1, and equal to it for the first of a group of tied
   * points.
   */
  lemma DashboardRankVsLeaderboard(users: seq<User>, i: nat)
    requires i < |Ranked(users)|
    ensures var ranked := Ranked(users); var students := Seqs.Filter(users, IsStudent);
      && DashboardRank(students, ranked[i].totalPoints) <= i + 1
      && ((i == 0 || ranked[i - 1].totalPoints > ranked[i].totalPoints) ==>
            DashboardRank(students, ranked[i].totalPoints) == i + 1)
  {
    var ranked := Ranked(users);
    var students := Seqs.Filter(users, IsStudent);
    var p := ranked[i].totalPoints;
    Seqs.FilterLengthPermutation(ranked, students, (u: User) => u.totalPoints > p);
    CountAboveSorted(ranked, i);
  }
}
