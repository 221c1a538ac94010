/**
 * The derived statistics, over plain sequences: the two current-streak loops
 * (models/Day.js getUserStreak and the calculateStreak helper of
 * controllers/emailController.js), the weekly mean score, and the mean
 * rounded to one decimal place as calculateAverageScore reports it.
 *
 * A date is a day number: midnight of day d is d days after the epoch, so
 * "one day earlier" is d - 1.
 */
module Stats {
  import opened Base

  // ---------------------------------------------------------------------------
  // Current streak, as models/Day.js computes it
  // ---------------------------------------------------------------------------

  /** How many of `rest` continue a run from `anchor`, each exactly one day away from the one before
      (the absolute difference of the two midnights, rounded up to whole days, must be 1). */
  function DifferenceRun(anchor: int, rest: seq<int>): nat
    decreases |rest|
  {
    if rest == [] || Abs(anchor - rest[0]) != 1 then 0
    else 1 + DifferenceRun(rest[0], rest[1..])
  }

  /** The streak getUserStreak reports for entries in the order the query returns them. */
  function DifferenceStreak(days: seq<int>): nat {
    if days == [] then 0 else 1 + DifferenceRun(days[0], days[1..])
  }

  /** The loop of getUserStreak: start at 1 with the newest entry as anchor; count each entry one day
      away from the anchor and make it the anchor; stop at the first that is not. */
  method CountDifferenceStreak(days: seq<int>) returns (streak: nat)
    ensures streak == DifferenceStreak(days)
  {
    if |days| == 0 {
      return 0;
    }
    streak := 1;
    var current := days[0];
    var i := 1;
    while i < |days|
      invariant 1 <= i <= |days|
      invariant streak + DifferenceRun(current, days[i..]) == DifferenceStreak(days)
    {
      assert days[i..][1..] == days[i + 1..];
      if Abs(current - days[i]) == 1 {
        streak := streak + 1;
        current := days[i];
      } else {
        break;
      }
      i := i + 1;
    }
  }

  // ---------------------------------------------------------------------------
  // Current streak, as the recap e-mail computes it
  // ---------------------------------------------------------------------------

  /** How many of `rest` continue a run from `anchor`, each dated the calendar day before the one before. */
  function PreviousDateRun(anchor: int, rest: seq<int>): nat
    decreases |rest|
  {
    if rest == [] || rest[0] != anchor - 1 then 0
    else 1 + PreviousDateRun(rest[0], rest[1..])
  }

  /** The streak calculateStreak reports. */
  function PreviousDateStreak(days: seq<int>): nat {
    if days == [] then 0 else 1 + PreviousDateRun(days[0], days[1..])
  }

  /** The loop of calculateStreak: the date of each next entry must equal the anchor's date minus one day. */
  method CountPreviousDateStreak(days: seq<int>) returns (streak: nat)
    ensures streak == PreviousDateStreak(days)
  {
    if |days| == 0 {
      return 0;
    }
    streak := 1;
    var current := days[0];
    var i := 1;
    while i < |days|
      invariant 1 <= i <= |days|
      invariant streak + PreviousDateRun(current, days[i..]) == PreviousDateStreak(days)
    {
      assert days[i..][1..] == days[i + 1..];
      var previous := current - 1;
      if previous == days[i] {
        streak := streak + 1;
        current := days[i];
      } else {
        break;
      }
      i := i + 1;
    }
  }

  // ---------------------------------------------------------------------------
  // What the streaks mean
  // ---------------------------------------------------------------------------

  /** The first `n` days run backwards one calendar day at a time. */
  predicate ConsecutiveBackwards(days: seq<int>, n: nat)
    requires n <= |days|
  {
    forall k :: 0 < k < n ==> days[k] == days[k - 1] - 1
  }

  lemma {:induction false} PreviousDateRunShape(anchor: int, rest: seq<int>)
    ensures PreviousDateRun(anchor, rest) <= |rest|
    ensures ConsecutiveBackwards([anchor] + rest, PreviousDateRun(anchor, rest) + 1)
    ensures PreviousDateRun(anchor, rest) < |rest| ==>
      rest[PreviousDateRun(anchor, rest)] != ([anchor] + rest)[PreviousDateRun(anchor, rest)] - 1
    decreases |rest|
  {
    if rest != [] && rest[0] == anchor - 1 {
      PreviousDateRunShape(rest[0], rest[1..]);
      assert [anchor] + rest == [anchor] + ([rest[0]] + rest[1..]);
    }
  }

  /** calculateStreak is 0 exactly for no entries, at least 1 and at most the number of entries
      otherwise; the first `streak` entries are consecutive days going back from the newest, and the
      entry after them (if any) is not the day before the last one counted. These facts fix the
      streak: it is the length of the longest run of consecutive days that starts at the newest entry. */
  lemma PreviousDateStreakShape(days: seq<int>)
    ensures PreviousDateStreak(days) == 0 <==> days == []
    ensures PreviousDateStreak(days) <= |days|
    ensures ConsecutiveBackwards(days, PreviousDateStreak(days))
    ensures 0 < PreviousDateStreak(days) < |days| ==>
      days[PreviousDateStreak(days)] != days[PreviousDateStreak(days) - 1] - 1
  {
    if days != [] {
      PreviousDateRunShape(days[0], days[1..]);
      assert [days[0]] + days[1..] == days;
    }
  }

  /** Any count with those properties is the streak: the characterization has exactly one solution. */
  lemma {:induction false} StreakIsLongestRun(days: seq<int>, n: nat)
    requires days != [] && 1 <= n <= |days|
    requires ConsecutiveBackwards(days, n)
    requires n < |days| ==> days[n] != days[n - 1] - 1
    ensures n == PreviousDateStreak(days)
  {
    PreviousDateStreakShape(days);
  }

  lemma {:induction false} RunsAgree(anchor: int, rest: seq<int>)
    requires rest != [] ==> rest[0] <= anchor
    requires forall k :: 0 < k < |rest| ==> rest[k] <= rest[k - 1]
    ensures DifferenceRun(anchor, rest) == PreviousDateRun(anchor, rest)
    decreases |rest|
  {
    if rest != [] {
      assert rest[0] <= anchor;
      if rest[0] == anchor - 1 {
        assert Abs(anchor - rest[0]) == 1;
        forall k | 0 < k < |rest[1..]|
          ensures rest[1..][k] <= rest[1..][k - 1]
        {
          assert rest[1..][k] == rest[k + 1];
        }
        assert |rest| > 1 ==> rest[1] <= rest[0];
        RunsAgree(rest[0], rest[1..]);
      } else {
        assert Abs(anchor - rest[0]) != 1;
      }
    }
  }

  /** On a history whose dates never go up from one entry to the next (newest first, as both
      queries sort it), the two implementations report the same streak. */
  lemma StreaksAgree(days: seq<int>)
    requires forall k :: 0 < k < |days| ==> days[k] <= days[k - 1]
    ensures DifferenceStreak(days) == PreviousDateStreak(days)
  {
    if days != [] {
      RunsAgree(days[0], days[1..]);
    }
  }

  /** The order matters: on dates that go up, getUserStreak still counts (the difference is absolute)
      while calculateStreak stops. */
  lemma StreaksDifferOnAscending()
    ensures DifferenceStreak([1, 2]) == 2 && PreviousDateStreak([1, 2]) == 1
  {
  }

  /** Consecutive days D, D-1, D-2 give a streak of 3; a gap (D, D-2) gives 1; a repeated day stops the walk. */
  lemma StreakExamples(d: int)
    ensures DifferenceStreak([d, d - 1, d - 2]) == 3 && PreviousDateStreak([d, d - 1, d - 2]) == 3
    ensures DifferenceStreak([d, d - 2]) == 1 && PreviousDateStreak([d, d - 2]) == 1
    ensures DifferenceStreak([d, d, d - 1]) == 1
  {
    assert [d, d - 1, d - 2][1..] == [d - 1, d - 2];
    assert [d - 1, d - 2][1..] == [d - 2];
    assert [d - 2][1..] == [];
    assert DifferenceRun(d - 1, [d - 2]) == 1 + DifferenceRun(d - 2, []);
    assert PreviousDateRun(d - 1, [d - 2]) == 1 + PreviousDateRun(d - 2, []);
    assert DifferenceRun(d, [d - 1, d - 2]) == 1 + DifferenceRun(d - 1, [d - 2]);
    assert PreviousDateRun(d, [d - 1, d - 2]) == 1 + PreviousDateRun(d - 1, [d - 2]);
    assert [d, d - 2][1..] == [d - 2];
    assert [d, d, d - 1][1..] == [d, d - 1];
  }

  // ---------------------------------------------------------------------------
  // Mean score
  // ---------------------------------------------------------------------------

  function Sum(s: seq<int>): int {
    if s == [] then 0 else Sum(s[..|s| - 1]) + s[|s| - 1]
  }

  /** The arithmetic mean, a defined zero for no scores (the `$avg` aggregate, or 0 without a match). */
  function Mean(s: seq<int>): real {
    if s == [] then 0.0 else Sum(s) as real / |s| as real
  }

  predicate AllWithin(s: seq<int>, lo: int, hi: int) {
    forall i :: 0 <= i < |s| ==> lo <= s[i] <= hi
  }

  lemma {:induction false} SumWithin(s: seq<int>, lo: int, hi: int)
    requires AllWithin(s, lo, hi)
    ensures lo * |s| <= Sum(s) <= hi * |s|
  {
    if s != [] {
      SumWithin(s[..|s| - 1], lo, hi);
      assert lo * |s| == lo * (|s| - 1) + lo;
      assert hi * |s| == hi * (|s| - 1) + hi;
    }
  }

  /** The mean of scores that all lie in [lo, hi] lies in [lo, hi] as well. */
  lemma MeanWithin(s: seq<int>, lo: int, hi: int)
    requires s != [] && AllWithin(s, lo, hi)
    ensures lo as real <= Mean(s) <= hi as real
  {
    SumWithin(s, lo, hi);
    var n := |s| as real;
    var m := Sum(s) as real / n;
    assert m * n == Sum(s) as real;
    assert (lo as real) * n <= m * n;
    assert m * n <= (hi as real) * n;
  }

  // ---------------------------------------------------------------------------
  // Mean rounded to tenths
  // ---------------------------------------------------------------------------

  /** calculateAverageScore, as a whole number of tenths: the mean rounded to one decimal place,
      halves rounded up; 0 for no scores. */
  function AverageTenths(s: seq<int>): (t: int)
    ensures s == [] ==> t == 0
    ensures s != [] ==> 20 * Sum(s) - |s| < 2 * |s| * t <= 20 * Sum(s) + |s|
  {
    if s == [] then 0
    else
      var n := |s|;
      var q := (20 * Sum(s) + n) / (2 * n);
      assert (20 * Sum(s) + n) == (2 * n) * q + (20 * Sum(s) + n) % (2 * n);
      q
  }

  lemma IntScale(a: int, b: int, c: int)
    requires a > 0 && b <= c
    ensures a * b <= a * c
  {
  }

  lemma ShiftByMean(t: real, S: real, N: real)
    requires N > 0.0
    ensures t - 10.0 * (S / N) == (2.0 * N * t - 20.0 * S) / (2.0 * N)
  {
  }

  lemma CastMul(a: int, b: int)
    ensures (a * b) as real == (a as real) * (b as real)
  {
  }

  lemma HalfBounds(x: real, N: real)
    requires N > 0.0 && -N < x <= N
    ensures -0.5 < x / (2.0 * N) <= 0.5
  {
  }

  /** The rounding bound, for a count `k`, a sum `S` and a rounded value `t`. */
  lemma RoundingBound(k: int, S: int, t: int)
    requires k > 0 && -k < 2 * k * t - 20 * S <= k
    ensures -0.5 < (t as real) - 10.0 * ((S as real) / (k as real)) <= 0.5
  {
    var x := 2 * k * t - 20 * S;
    var N := k as real;
    CastMul(2 * k, t);
    CastMul(20, S);
    assert x as real == 2.0 * N * (t as real) - 20.0 * (S as real);
    assert -N < x as real <= N;
    ShiftByMean(t as real, S as real, N);
    HalfBounds(x as real, N);
    assert (t as real) - 10.0 * ((S as real) / N) == (x as real) / (2.0 * N);
  }

  /** The tenths lie within half a tenth of the exact mean. */
  lemma TenthsNearMean(s: seq<int>)
    requires s != []
    ensures -0.5 < (AverageTenths(s) as real) - 10.0 * Mean(s) <= 0.5
  {
    RoundingBound(|s|, Sum(s), AverageTenths(s));
  }

  /** For scores from 1 to 10 the reported average lies between 1.0 and 10.0. */
  lemma TenthsWithin(s: seq<int>)
    requires s != [] && AllWithin(s, 1, 10)
    ensures 10 <= AverageTenths(s) <= 100
  {
    SumWithin(s, 1, 10);
    var n := |s|;
    var t := AverageTenths(s);
    assert 20 * n <= 20 * Sum(s) <= 200 * n;
    if t < 10 {
      IntScale(2 * n, t, 9);
      assert false;
    }
    if t > 100 {
      IntScale(2 * n, 101, t);
      assert false;
    }
  }

  /** Scores 8, 6 and 10 average 8.0. */
  lemma AverageExample()
    ensures Mean([8, 6, 10]) == 8.0 && AverageTenths([8, 6, 10]) == 80
  {
    assert Sum([8, 6, 10]) == 24 by {
      assert [8, 6, 10][..2] == [8, 6];
      assert [8, 6][..1] == [8];
      assert [8][..0] == [];
    }
  }
}
