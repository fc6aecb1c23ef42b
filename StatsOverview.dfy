/**
 * The dashboard figures of src/components/StatsOverview.tsx: the number of
 * habits, the completions summed over all habits, the rounded average of
 * the completion rates and the best longest streak. Each figure is a
 * `habits.reduce` that calls calculateHabitStats on every habit.
 */
module StatsOverview {
  import opened Calendar
  import opened HabitTypes
  import opened HabitUtils
  import DateUtils

  /** The per-habit figure each `reduce` reads from calculateHabitStats, for the day `today`. */
  function CompletionsOn(today: Date): Habit -> int
    requires ValidDate(today)
  {
    (h: Habit) => StatsOf(h.completions, today).totalCompletions
  }

  function RateOn(today: Date): Habit -> int
    requires ValidDate(today)
  {
    (h: Habit) => StatsOf(h.completions, today).completionRate
  }

  function LongestOn(today: Date): Habit -> int
    requires ValidDate(today)
  {
    (h: Habit) => StatsOf(h.completions, today).longestStreak
  }

  /** `habits.reduce((sum, habit) => sum + f(habit), 0)`. */
  function Sum(habits: seq<Habit>, f: Habit -> int): (r: int)
    ensures (forall i :: 0 <= i < |habits| ==> f(habits[i]) >= 0) ==> r >= 0
  {
    if habits == [] then 0 else Sum(habits[..|habits| - 1], f) + f(habits[|habits| - 1])
  }

  /** `habits.reduce((max, habit) => Math.max(max, f(habit)), 0)`. */
  function Max(habits: seq<Habit>, f: Habit -> int): (r: int)
    ensures r >= 0
  {
    if habits == [] then 0
    else
      var m, x := Max(habits[..|habits| - 1], f), f(habits[|habits| - 1]);
      if m < x then x else m
  }

  /** `r` is `sum / n` rounded to the nearest integer, halves rounded up. */
  predicate RoundsMean(r: int, sum: int, n: int)
  {
    2 * n * r <= 2 * sum + n < 2 * n * (r + 1)
  }

  /** `Math.round(sum / n)` for a positive count. */
  function RoundedMean(sum: int, n: int): (r: int)
    requires n > 0
    ensures RoundsMean(r, sum, n)
  {
    (2 * sum + n) / (2 * n)
  }

  /** The four figures the dashboard shows. */
  datatype Overview = Overview(totalHabits: int, totalCompletions: int, averageCompletionRate: int, longestStreak: int)

  /** StatsOverview's figures for `habits` on the day `today`. */
  function OverviewOf(habits: seq<Habit>, today: Date): (o: Overview)
    requires ValidDate(today)
    ensures o.totalHabits == |habits| && o.totalCompletions >= 0 && o.longestStreak >= 0
    ensures 0 <= o.averageCompletionRate <= 100
  {
    RatesArePercentages(habits, today);
    SumBounds(habits, RateOn(today), 100);
    Overview(
      |habits|,
      Sum(habits, CompletionsOn(today)),
      if |habits| > 0 then
        RoundedMeanRange(Sum(habits, RateOn(today)), |habits|);
        RoundedMean(Sum(habits, RateOn(today)), |habits|)
      else 0,
      Max(habits, LongestOn(today)))
  }

  // ---------------------------------------------------------------------
  // What the figures mean
  // ---------------------------------------------------------------------

  /** The maximum is at least 0 and every value, and it is 0 or one of the values. */
  lemma {:induction false} MaxSpec(habits: seq<Habit>, f: Habit -> int)
    ensures Max(habits, f) >= 0 && forall i :: 0 <= i < |habits| ==> f(habits[i]) <= Max(habits, f)
    ensures Max(habits, f) == 0 || exists i :: 0 <= i < |habits| && f(habits[i]) == Max(habits, f)
    decreases |habits|
  {
    if habits != [] {
      var h' := habits[..|habits| - 1];
      MaxSpec(h', f);
      assert forall i :: 0 <= i < |h'| ==> habits[i] == h'[i];
    }
  }

  /** A sum of values each between 0 and `hi` lies between 0 and `hi` times the count. */
  lemma {:induction false} SumBounds(habits: seq<Habit>, f: Habit -> int, hi: int)
    requires forall i :: 0 <= i < |habits| ==> 0 <= f(habits[i]) <= hi
    ensures 0 <= Sum(habits, f) <= hi * |habits|
  {
    if habits != [] {
      SumBounds(habits[..|habits| - 1], f, hi);
    }
  }

  /** Folds of two functions that agree on the list agree. */
  lemma {:induction false} SumSame(habits: seq<Habit>, f: Habit -> int, g: Habit -> int)
    requires forall i :: 0 <= i < |habits| ==> f(habits[i]) == g(habits[i])
    ensures Sum(habits, f) == Sum(habits, g)
  {
    if habits != [] {
      SumSame(habits[..|habits| - 1], f, g);
    }
  }

  /** A rounded mean of values in 0..100 is again in 0..100. */
  lemma RoundedMeanRange(sum: int, n: int)
    requires 0 < n && 0 <= sum <= 100 * n
    ensures 0 <= RoundedMean(sum, n) <= 100
  {
    var r := RoundedMean(sum, n);
    assert 2 * n * r <= 2 * sum + n < 2 * n * (r + 1);
    if r > 100 {
      assert 2 * n * r >= 2 * n * 101 by {
        MulMonotone(2 * n, 101, r);
      }
    }
    if r < 0 {
      assert 2 * n * (r + 1) <= 0 by {
        MulMonotone(2 * n, r + 1, 0);
      }
    }
  }

  lemma MulMonotone(a: int, x: int, y: int)
    requires a >= 0 && x <= y
    ensures a * x <= a * y
  {
  }

  /** Every habit's completion rate is a percentage. */
  lemma RatesArePercentages(habits: seq<Habit>, today: Date)
    requires ValidDate(today)
    ensures forall i :: 0 <= i < |habits| ==> 0 <= RateOn(today)(habits[i]) <= 100
  {
    forall i | 0 <= i < |habits|
      ensures 0 <= RateOn(today)(habits[i]) <= 100
    {
      var c := habits[i].completions;
      RatePercentRange(CountMarked(c, DateUtils.LastNDays(today, 30)));
    }
  }

  /** The completions figure is the sum of each habit's completed days, and never negative. */
  lemma TotalCompletionsSpec(habits: seq<Habit>, today: Date)
    requires ValidDate(today)
    ensures OverviewOf(habits, today).totalCompletions == Sum(habits, (h: Habit) => TotalCompletions(h.completions))
    ensures OverviewOf(habits, today).totalCompletions >= 0
  {
    var g := (h: Habit) => TotalCompletions(h.completions);
    SumSame(habits, CompletionsOn(today), g);
  }

  /**
   * averageCompletionRate is 0 for no habits; otherwise it is the mean of
   * the per-habit rates rounded half up, and it lies in 0..100.
   */
  lemma AverageRateSpec(habits: seq<Habit>, today: Date)
    requires ValidDate(today)
    ensures var o := OverviewOf(habits, today);
      var sum := Sum(habits, (h: Habit) => CompletionRateOf(h.completions, today));
      (|habits| == 0 ==> o.averageCompletionRate == 0) &&
      (|habits| > 0 ==> RoundsMean(o.averageCompletionRate, sum, |habits|)) &&
      0 <= o.averageCompletionRate <= 100
  {
    RatesArePercentages(habits, today);
    SumBounds(habits, RateOn(today), 100);
    SumSame(habits, RateOn(today), (h: Habit) => CompletionRateOf(h.completions, today));
    if |habits| > 0 {
      RoundedMeanRange(Sum(habits, RateOn(today)), |habits|);
    }
  }

  /** The overall longest streak is every habit's longestStreak or more, and is 0 or one of them. */
  lemma BestStreakSpec(habits: seq<Habit>, today: Date)
    requires ValidDate(today)
    ensures var m := OverviewOf(habits, today).longestStreak;
      (forall i :: 0 <= i < |habits| ==> LongestStreakOf(habits[i].completions) <= m) &&
      (m == 0 || exists i :: 0 <= i < |habits| && LongestStreakOf(habits[i].completions) == m)
  {
    MaxSpec(habits, LongestOn(today));
  }

  // ---------------------------------------------------------------------
  // Order independence
  // ---------------------------------------------------------------------

  /** The last element of `a` sits somewhere in its permutation `b`; the rest of both still match. */
  lemma PermutedLast<T>(a: seq<T>, b: seq<T>) returns (j: nat)
    requires a != [] && multiset(a) == multiset(b)
    ensures j < |b| && b[j] == a[|a| - 1]
    ensures multiset(a[..|a| - 1]) == multiset(b[..j] + b[j + 1..])
  {
    var a', x := a[..|a| - 1], a[|a| - 1];
    assert a == a' + [x];
    assert multiset(a') == multiset(a) - multiset{x};
    assert x in multiset(b);
    j :| 0 <= j < |b| && b[j] == x;
    var p, q := b[..j], b[j + 1..];
    assert b == p + [x] + q;
    assert p + q == b[..j] + b[j + 1..];
    assert multiset(p + q) == multiset(b) - multiset{x};
  }

  /** Taking habit `j` out of a sum subtracts its term. */
  lemma {:induction false} SumRemove(b: seq<Habit>, j: nat, f: Habit -> int)
    requires j < |b|
    ensures Sum(b, f) == Sum(b[..j] + b[j + 1..], f) + f(b[j])
    decreases |b|
  {
    var n := |b| - 1;
    if j == n {
      assert b[..j] + b[j + 1..] == b[..n];
    } else {
      var b' := b[..n];
      SumRemove(b', j, f);
      var r := b[..j] + b[j + 1..];
      assert r[..|r| - 1] == b'[..j] + b'[j + 1..] && r[|r| - 1] == b[n];
    }
  }

  /** The maximum is the larger of habit `j`'s term and the maximum of the others. */
  lemma {:induction false} MaxRemove(b: seq<Habit>, j: nat, f: Habit -> int)
    requires j < |b|
    ensures var m := Max(b[..j] + b[j + 1..], f); Max(b, f) == if m < f(b[j]) then f(b[j]) else m
    decreases |b|
  {
    var n := |b| - 1;
    if j == n {
      assert b[..j] + b[j + 1..] == b[..n];
    } else {
      var b' := b[..n];
      MaxRemove(b', j, f);
      var r := b[..j] + b[j + 1..];
      assert r[..|r| - 1] == b'[..j] + b'[j + 1..] && r[|r| - 1] == b[n];
    }
  }

  /** A sum does not depend on the order of the habits. */
  lemma {:induction false} SumPermutation(a: seq<Habit>, b: seq<Habit>, f: Habit -> int)
    requires multiset(a) == multiset(b)
    ensures Sum(a, f) == Sum(b, f)
    decreases |a|
  {
    if a == [] {
      assert |b| == |multiset(b)|;
    } else {
      var j := PermutedLast(a, b);
      SumPermutation(a[..|a| - 1], b[..j] + b[j + 1..], f);
      SumRemove(b, j, f);
    }
  }

  /** A maximum does not depend on the order of the habits. */
  lemma {:induction false} MaxPermutation(a: seq<Habit>, b: seq<Habit>, f: Habit -> int)
    requires multiset(a) == multiset(b)
    ensures Max(a, f) == Max(b, f)
    decreases |a|
  {
    if a == [] {
      assert |b| == |multiset(b)|;
    } else {
      var j := PermutedLast(a, b);
      MaxPermutation(a[..|a| - 1], b[..j] + b[j + 1..], f);
      MaxRemove(b, j, f);
    }
  }

  /** None of the four figures depends on the order of the habit list. */
  lemma OverviewOrderIndependent(a: seq<Habit>, b: seq<Habit>, today: Date)
    requires ValidDate(today) && multiset(a) == multiset(b)
    ensures OverviewOf(a, today) == OverviewOf(b, today)
  {
    assert |a| == |multiset(a)| == |multiset(b)| == |b|;
    SumPermutation(a, b, CompletionsOn(today));
    SumPermutation(a, b, RateOn(today));
    MaxPermutation(a, b, LongestOn(today));
  }
}
