/** The aggregations of `backend/services/stats_service.py`: per-test statistics over the finished
    attempts, the attempt list of a test newest first, and per-user statistics. */
module StatsService {
  import opened Wrappers
  import opened JsonValues
  import opened Models
  import opened Database
  import Numeric
  import Tables
  import TestService

  /** `filter(TestAttempt.finished_at.isnot(None))`, keeping the order. */
  function Finished(xs: seq<Attempt>): (r: seq<Attempt>)
    ensures |r| <= |xs|
    ensures forall i :: 0 <= i < |r| ==> r[i].finishedAt.Some? && r[i] in xs
    ensures forall i :: 0 <= i < |xs| && xs[i].finishedAt.Some? ==> xs[i] in r
  {
    if xs == [] then []
    else
      var last := xs[|xs| - 1];
      Finished(xs[..|xs| - 1]) + (if last.finishedAt.Some? then [last] else [])
  }

  /** Every stored score is a percentage with at most two decimals. */
  predicate WellScored(xs: seq<Attempt>) {
    forall i :: 0 <= i < |xs| && xs[i].score.Some? ==>
      0.0 <= xs[i].score.value <= 100.0 && Numeric.IsHundredths(xs[i].score.value)
  }

  /** `[a.score for a in attempts if a.score is not None]`. */
  function Scores(xs: seq<Attempt>): (r: seq<real>)
    ensures |r| <= |xs|
    ensures (forall i :: 0 <= i < |xs| ==> xs[i].score.Some?) ==> |r| == |xs|
    ensures WellScored(xs) ==> forall i :: 0 <= i < |r| ==> 0.0 <= r[i] <= 100.0 && Numeric.IsHundredths(r[i])
  {
    if xs == [] then []
    else
      var last := xs[|xs| - 1];
      Scores(xs[..|xs| - 1]) + (if last.score.Some? then [last.score.value] else [])
  }

  function Sum(xs: seq<real>): real {
    if xs == [] then 0.0 else Sum(xs[..|xs| - 1]) + xs[|xs| - 1]
  }

  function Max(xs: seq<real>): (m: real)
    requires xs != []
    ensures m in xs && forall i :: 0 <= i < |xs| ==> xs[i] <= m
  {
    if |xs| == 1 then xs[0]
    else
      var m := Max(xs[..|xs| - 1]);
      if xs[|xs| - 1] > m then xs[|xs| - 1] else m
  }

  function Min(xs: seq<real>): (m: real)
    requires xs != []
    ensures m in xs && forall i :: 0 <= i < |xs| ==> m <= xs[i]
  {
    if |xs| == 1 then xs[0]
    else
      var m := Min(xs[..|xs| - 1]);
      if xs[|xs| - 1] < m then xs[|xs| - 1] else m
  }

  /** `sum(xs) / len(xs) if xs else 0`. */
  function Mean(xs: seq<real>): real {
    if xs == [] then 0.0 else Sum(xs) / |xs| as real
  }

  lemma {:induction false} SumBounds(xs: seq<real>, lo: real, hi: real)
    requires forall i :: 0 <= i < |xs| ==> lo <= xs[i] <= hi
    ensures |xs| as real * lo <= Sum(xs) <= |xs| as real * hi
  {
    if xs != [] {
      SumBounds(xs[..|xs| - 1], lo, hi);
    }
  }

  lemma DivideBetween(sum: real, n: real, lo: real, hi: real)
    requires 0.0 < n && n * lo <= sum <= n * hi
    ensures lo <= sum / n <= hi
  {
    var q := sum / n;
    assert sum == q * n;
  }

  /** The mean lies between the smallest and the largest value. */
  lemma MeanBetween(xs: seq<real>)
    requires xs != []
    ensures Min(xs) <= Mean(xs) <= Max(xs)
  {
    SumBounds(xs, Min(xs), Max(xs));
    DivideBetween(Sum(xs), |xs| as real, Min(xs), Max(xs));
  }

  /** `round(mean, 2)` of two-decimal values stays between their minimum and maximum. */
  lemma RoundedMeanBetween(xs: seq<real>)
    requires xs != [] && forall i :: 0 <= i < |xs| ==> Numeric.IsHundredths(xs[i])
    ensures Min(xs) <= Numeric.Round2(Mean(xs)) <= Max(xs)
  {
    MeanBetween(xs);
    Numeric.Round2Monotone(Min(xs), Mean(xs));
    Numeric.Round2Monotone(Mean(xs), Max(xs));
    Numeric.Round2Fixes(Min(xs));
    Numeric.Round2Fixes(Max(xs));
  }

  /** The dictionary `get_test_statistics` returns. */
  datatype TestStats = TestStats(
    testId: nat, totalAttempts: nat, averageScore: real, highestScore: real, lowestScore: real)

  /** The statistics of a list of finished attempts. */
  function StatsOf(testId: nat, finished: seq<Attempt>): (r: TestStats)
    ensures r.testId == testId && r.totalAttempts == |finished|
    ensures finished == [] || Scores(finished) == [] ==>
              r.averageScore == 0.0 && r.highestScore == 0.0 && r.lowestScore == 0.0
    ensures Scores(finished) != [] ==>
              && r.averageScore == Numeric.Round2(Mean(Scores(finished)))
              && r.highestScore == Max(Scores(finished)) && r.lowestScore == Min(Scores(finished))
  {
    if |finished| == 0 then TestStats(testId, 0, 0.0, 0.0, 0.0)
    else
      var scores := Scores(finished);
      TestStats(testId, |finished|, Numeric.Round2(Mean(scores)),
                if scores != [] then Max(scores) else 0.0,
                if scores != [] then Min(scores) else 0.0)
  }

  /** The finished attempts of a test, in id order. */
  function FinishedAttemptsOf(s: DbState, testId: nat): (r: seq<Attempt>)
    requires KeysValid(s)
    ensures forall i :: 0 <= i < |r| ==> r[i].finishedAt.Some? && r[i].testId == testId && r[i] in s.attempts.Values
    ensures forall k :: k in s.attempts && s.attempts[k].testId == testId && s.attempts[k].finishedAt.Some? ==> s.attempts[k] in r
  {
    Finished(AttemptsOf(s, testId))
  }

  /** `get_test_statistics`. */
  function GetTestStatistics(s: DbState, testId: nat, userId: nat): (r: Result<TestStats, string>)
    requires KeysValid(s)
    ensures TestService.OwnerError(s, testId, userId).Some? ==> r == Err(TestService.OwnerError(s, testId, userId).value)
    ensures TestService.OwnerError(s, testId, userId).None? ==> r == Ok(StatsOf(testId, FinishedAttemptsOf(s, testId)))
  {
    match TestService.OwnerError(s, testId, userId)
    case Some(e) => Err(e)
    case None => Ok(StatsOf(testId, FinishedAttemptsOf(s, testId)))
  }

  lemma FinishedWellScored(s: DbState, xs: seq<Attempt>)
    requires KeysValid(s) && ScoresValid(s)
    requires forall i :: 0 <= i < |xs| ==> xs[i] in s.attempts.Values
    ensures WellScored(xs)
    ensures forall i :: 0 <= i < |xs| ==> (xs[i].score.Some? <==> xs[i].finishedAt.Some?)
  {
    forall i | 0 <= i < |xs| ensures AttemptShape(xs[i]) {
      assert xs[i] in s.attempts.Values;
      var k :| k in s.attempts && s.attempts[k] == xs[i];
      assert AttemptShape(s.attempts[k]);
    }
  }

  /** In a consistent store every finished attempt has a score, so the statistics average all
      finished attempts, and the lowest score, the average and the highest score are ordered. */
  lemma TestStatisticsOrdered(s: DbState, testId: nat, userId: nat)
    requires Consistent(s)
    requires GetTestStatistics(s, testId, userId).Ok?
    ensures var st := GetTestStatistics(s, testId, userId).value;
            && st.totalAttempts == |Scores(FinishedAttemptsOf(s, testId))|
            && 0.0 <= st.lowestScore <= st.averageScore <= st.highestScore <= 100.0
  {
    var fin := FinishedAttemptsOf(s, testId);
    FinishedWellScored(s, fin);
    var scores := Scores(fin);
    if scores != [] {
      RoundedMeanBetween(scores);
      assert Min(scores) in scores && Max(scores) in scores;
    }
  }

  /** Newest first: `started_at` never increases along the list. */
  predicate NewestFirst(xs: seq<Attempt>) {
    forall i, j :: 0 <= i < j < |xs| ==> xs[i].startedAt >= xs[j].startedAt
  }

  /** An attempt started no earlier than every attempt of a newest-first list can head it. */
  lemma PrependNewest(h: Attempt, xs: seq<Attempt>)
    requires NewestFirst(xs)
    requires forall i :: 0 <= i < |xs| ==> h.startedAt >= xs[i].startedAt
    ensures NewestFirst([h] + xs)
  {
  }

  lemma BoundedByMultiset(h: Attempt, ys: seq<Attempt>, xs: seq<Attempt>)
    requires forall i :: 0 <= i < |xs| ==> h.startedAt >= xs[i].startedAt
    requires multiset(ys) <= multiset(xs)
    ensures forall i :: 0 <= i < |ys| ==> h.startedAt >= ys[i].startedAt
  {
    forall i | 0 <= i < |ys| ensures h.startedAt >= ys[i].startedAt {
      assert ys[i] in multiset(ys);
      assert ys[i] in xs;
    }
  }

  function InsertByStart(a: Attempt, xs: seq<Attempt>): (r: seq<Attempt>)
    requires NewestFirst(xs)
    ensures NewestFirst(r)
    ensures multiset(r) == multiset(xs) + multiset{a}
  {
    if xs == [] || a.startedAt > xs[0].startedAt then
      PrependNewest(a, xs);
      [a] + xs
    else
      var rest := InsertByStart(a, xs[1..]);
      assert xs == [xs[0]] + xs[1..];
      BoundedByMultiset(xs[0], rest, [a] + xs[1..]);
      PrependNewest(xs[0], rest);
      [xs[0]] + rest
  }

  /** `order_by(TestAttempt.started_at.desc())`; attempts started at the same time stay in id order. */
  function SortNewestFirst(xs: seq<Attempt>): (r: seq<Attempt>)
    ensures NewestFirst(r)
    ensures multiset(r) == multiset(xs)
  {
    if xs == [] then []
    else
      assert xs == xs[..|xs| - 1] + [xs[|xs| - 1]];
      InsertByStart(xs[|xs| - 1], SortNewestFirst(xs[..|xs| - 1]))
  }

  lemma SortedAttemptsOfTest(xs: seq<Attempt>, testId: nat)
    requires forall i :: 0 <= i < |xs| ==> xs[i].testId == testId
    ensures |SortNewestFirst(xs)| == |xs|
    ensures forall i :: 0 <= i < |SortNewestFirst(xs)| ==> SortNewestFirst(xs)[i].testId == testId
  {
    var sorted := SortNewestFirst(xs);
    assert |sorted| == |multiset(sorted)| == |multiset(xs)| == |xs|;
    forall i | 0 <= i < |sorted| ensures sorted[i].testId == testId {
      assert sorted[i] in multiset(xs);
    }
  }

  /** One page of attempts as dictionaries without their answers. */
  function AttemptPage(c: Codec, xs: seq<Attempt>, skip: nat, limit: nat): (r: seq<AttemptDict>)
    ensures |r| <= limit
    ensures |r| == |Tables.Page(xs, skip, limit)|
    ensures forall i :: 0 <= i < |r| ==> r[i] == AttemptToDict(c, xs[skip + i], [], false)
    ensures skip == 0 && |r| < limit ==> |r| == |xs|
    ensures NewestFirst(xs) ==> forall i, j :: 0 <= i < j < |r| ==> r[i].startedAt >= r[j].startedAt
    ensures forall i :: 0 <= i < |r| ==> skip + i < |xs| && r[i].id == xs[skip + i].id && r[i].testId == xs[skip + i].testId
    ensures forall i :: 0 <= i < |r| ==> r[i].answers.None?
  {
    var page := Tables.Page(xs, skip, limit);
    seq(|page|, i requires 0 <= i < |page| => AttemptToDict(c, page[i], [], false))
  }

  /** `get_test_attempts`: owner only; one page of the test's attempts, newest first. */
  function GetTestAttempts(s: DbState, c: Codec, testId: nat, userId: nat, skip: nat, limit: nat)
    : (r: Result<seq<AttemptDict>, string>)
    requires KeysValid(s)
    ensures TestService.OwnerError(s, testId, userId).Some? ==> r == Err(TestService.OwnerError(s, testId, userId).value)
    ensures r.Ok? <==> TestService.OwnerError(s, testId, userId).None?
    ensures r.Ok? ==> |r.value| <= limit
    // the page is the `skip .. skip + limit` window of the test's attempts sorted newest first
    ensures r.Ok? ==> var sorted := SortNewestFirst(AttemptsOf(s, testId));
                      && |r.value| == |Tables.Page(sorted, skip, limit)|
                      && forall i :: 0 <= i < |r.value| ==>
                           skip + i < |sorted| && r.value[i] == AttemptToDict(c, sorted[skip + i], [], false)
    ensures r.Ok? ==> forall i, j :: 0 <= i < j < |r.value| ==> r.value[i].startedAt >= r.value[j].startedAt
    ensures r.Ok? ==> forall i :: 0 <= i < |r.value| ==> r.value[i].testId == testId && r.value[i].answers.None?
    // a first page shorter than the limit lists every attempt of the test
    ensures r.Ok? && skip == 0 && |r.value| < limit ==> |r.value| == |AttemptsOf(s, testId)|
  {
    match TestService.OwnerError(s, testId, userId)
    case Some(e) => Err(e)
    case None =>
      var all := AttemptsOf(s, testId);
      TestAttemptPage(c, all, testId, skip, limit);
      Ok(AttemptPage(c, SortNewestFirst(all), skip, limit))
  }

  /** A page of one test's attempts, newest first, holds only that test's attempts, in order; a
      short first page holds all of them. */
  lemma TestAttemptPage(c: Codec, all: seq<Attempt>, testId: nat, skip: nat, limit: nat)
    requires forall i :: 0 <= i < |all| ==> all[i].testId == testId
    ensures var p := AttemptPage(c, SortNewestFirst(all), skip, limit);
            && (forall i, j :: 0 <= i < j < |p| ==> p[i].startedAt >= p[j].startedAt)
            && (forall i :: 0 <= i < |p| ==> p[i].testId == testId && p[i].answers.None?)
            && (skip == 0 && |p| < limit ==> |p| == |all|)
  {
    SortedAttemptsOfTest(all, testId);
  }

  /** The dictionary `get_user_statistics` returns. */
  datatype UserStats = UserStats(totalAttempts: nat, testsCreated: nat, averageScore: real)

  /** The finished attempts a user made, in id order. */
  function FinishedAttemptsBy(s: DbState, userId: nat): (r: seq<Attempt>)
    requires KeysValid(s)
    ensures forall i :: 0 <= i < |r| ==> r[i].finishedAt.Some? && r[i].userId == userId && r[i] in s.attempts.Values
    ensures forall k :: k in s.attempts && s.attempts[k].userId == userId && s.attempts[k].finishedAt.Some? ==> s.attempts[k] in r
  {
    Tables.Rows(s.attempts, Tables.Ids(s.attempts, s.nextAttemptId, (a: Attempt) => a.userId == userId && a.finishedAt.Some?))
  }

  /** `get_user_statistics`. */
  function GetUserStatistics(s: DbState, userId: nat): (r: UserStats)
    requires KeysValid(s)
    ensures r.totalAttempts == |FinishedAttemptsBy(s, userId)|
    ensures r.testsCreated == |TestService.UserTestIds(s, userId)|
    ensures Scores(FinishedAttemptsBy(s, userId)) == [] ==> r.averageScore == 0.0
    ensures var scores := Scores(FinishedAttemptsBy(s, userId));
            scores != [] ==> r.averageScore == Numeric.Round2(Sum(scores) / |scores| as real)
  {
    var fin := FinishedAttemptsBy(s, userId);
    UserStats(|fin|, |TestService.UserTestIds(s, userId)|, Numeric.Round2(Mean(Scores(fin))))
  }

  /** A user's average is a percentage with at most two decimals, between the user's lowest and
      highest finished score. */
  lemma UserAverageBetween(s: DbState, userId: nat)
    requires Consistent(s)
    ensures var scores := Scores(FinishedAttemptsBy(s, userId));
            var avg := GetUserStatistics(s, userId).averageScore;
            && 0.0 <= avg <= 100.0 && Numeric.IsHundredths(avg)
            && (scores != [] ==> Min(scores) <= avg <= Max(scores))
            && |scores| == GetUserStatistics(s, userId).totalAttempts
  {
    var fin := FinishedAttemptsBy(s, userId);
    FinishedWellScored(s, fin);
    var scores := Scores(fin);
    if scores != [] {
      RoundedMeanBetween(scores);
      assert Min(scores) in scores && Max(scores) in scores;
    } else {
      Numeric.Round2Fixes(0.0);
    }
  }
}
