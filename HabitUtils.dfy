/**
 * The statistics engine of src/utils/habitUtils.ts: current streak,
 * longest streak, total completions and the 30-day completion rate of one
 * habit, and the streak emoji.
 *
 * Each loop of `calculateHabitStats` is a method proved against a pure
 * specification function; the lemmas state what the source promises about
 * those functions.
 */
module HabitUtils {
  import opened Calendar
  import opened KeyOrder
  import opened DateUtils
  import opened HabitTypes

  // ---------------------------------------------------------------------
  // Reading the completion map
  // ---------------------------------------------------------------------

  /** `completions[k]` used as a condition: a missing key reads as false. */
  predicate Marked(c: map<string, bool>, k: string) {
    k in c && c[k]
  }

  function TrueKeys(c: map<string, bool>): (s: set<string>)
    ensures forall k :: k in s <==> Marked(c, k)
  {
    set k | k in c && c[k]
  }

  /** totalCompletions: the number of entries whose value is true. */
  function TotalCompletions(c: map<string, bool>): (n: nat)
    ensures n <= |c|
  {
    SubsetCardinality(TrueKeys(c), c.Keys);
    |TrueKeys(c)|
  }

  lemma {:induction false} SubsetCardinality(a: set<string>, b: set<string>)
    requires a <= b
    ensures |a| <= |b|
    decreases |b|
  {
    if a != {} {
      var x :| x in a;
      SubsetCardinality(a - {x}, b - {x});
    }
  }

  /** Removing a completed day lowers the total by one. */
  lemma TotalRemoveMarked(c: map<string, bool>, k: string)
    requires Marked(c, k)
    ensures TotalCompletions(c - {k}) == TotalCompletions(c) - 1
    ensures |c - {k}| == |c| - 1
  {
    assert TrueKeys(c - {k}) == TrueKeys(c) - {k};
    assert (c - {k}).Keys == c.Keys - {k};
  }

  /** Recording `false` for a completed day lowers the total by one. */
  lemma TotalUnmark(c: map<string, bool>, k: string)
    requires Marked(c, k)
    ensures TotalCompletions(c[k := false]) == TotalCompletions(c) - 1
  {
    assert TrueKeys(c[k := false]) == TrueKeys(c) - {k};
  }

  /** Recording `true` for a day not yet completed raises the total by one. */
  lemma TotalMark(c: map<string, bool>, k: string)
    requires !Marked(c, k)
    ensures TotalCompletions(c[k := true]) == TotalCompletions(c) + 1
  {
    assert TrueKeys(c[k := true]) == TrueKeys(c) + {k};
  }

  /** False entries do not count: recording `false` for a day leaves an uncompleted total alone. */
  lemma TotalIgnoresFalse(c: map<string, bool>, k: string)
    requires !Marked(c, k)
    ensures TotalCompletions(c[k := false]) == TotalCompletions(c)
  {
    assert TrueKeys(c[k := false]) == TrueKeys(c);
  }

  /** The key of the day `i` days before today. */
  function DayKey(today: Date, i: int): string
    requires ValidDate(today)
  {
    DateString(today, -i)
  }

  // ---------------------------------------------------------------------
  // Current streak (habitUtils.ts lines 9-16)
  // ---------------------------------------------------------------------

  /**
   * The number of consecutive completed days ending at `d`, walking back
   * one calendar day at a time. Removing each visited key makes the map
   * smaller, which bounds the walk; later lookups never meet that key.
   */
  function StreakEndingAt(c: map<string, bool>, d: Date): (r: nat)
    requires ValidDate(d)
    ensures r <= TotalCompletions(c)
    decreases |c|
  {
    var k := Format(d);
    if Marked(c, k) then
      TotalRemoveMarked(c, k);
      1 + StreakEndingAt(c - {k}, Pred(d))
    else 0
  }

  /** currentStreak of calculateHabitStats. */
  function CurrentStreakOf(c: map<string, bool>, today: Date): (r: nat)
    requires ValidDate(today)
    ensures r <= TotalCompletions(c)
    ensures r > 0 <==> Marked(c, TodayString(today))
  {
    StreakEndingAt(c, today)
  }

  /** Keys of days after `e` never influence the walk back from `e`. */
  lemma {:induction false} StreakIgnoresLaterKey(c: map<string, bool>, e: Date, f: Date)
    requires ValidDate(e) && ValidDate(f) && Before(e, f)
    ensures StreakEndingAt(c - {Format(f)}, e) == StreakEndingAt(c, e)
    decreases |c|
  {
    var k, k' := Format(f), Format(e);
    if k == k' {
      FormatInjective(e, f);
    }
    if Marked(c, k') {
      TotalRemoveMarked(c, k');
      assert (c - {k}) - {k'} == (c - {k'}) - {k};
      StreakIgnoresLaterKey(c - {k'}, Pred(e), f);
    }
  }

  /** A completed day adds one to the streak of the day before it. */
  lemma StreakStep(c: map<string, bool>, d: Date)
    requires ValidDate(d) && Marked(c, Format(d))
    ensures StreakEndingAt(c, d) == 1 + StreakEndingAt(c, Pred(d))
  {
    StreakIgnoresLaterKey(c, Pred(d), d);
  }

  /**
   * `k` is the length of the run of completed days ending today: the `k`
   * days up to today are completed and the day before them is not.
   */
  ghost predicate IsCurrentRun(c: map<string, bool>, today: Date, k: nat)
    requires ValidDate(today)
  {
    (forall i :: 0 <= i < k ==> Marked(c, DayKey(today, i))) && !Marked(c, DayKey(today, k))
  }

  /** Counting back from yesterday is counting back from today, one day further. */
  lemma DayKeyPred(d: Date, i: int)
    requires ValidDate(d)
    ensures DayKey(Pred(d), i) == DayKey(d, i + 1)
  {
    AddDaysPred(d, -i);
  }

  /** The completed days before `d`, together with `d`, are completed days back from `d`. */
  lemma RunExtendDays(c: map<string, bool>, d: Date, r: nat)
    requires ValidDate(d) && Marked(c, Format(d))
    requires forall i :: 0 <= i < r ==> Marked(c - {Format(d)}, DayKey(Pred(d), i))
    ensures forall i :: 0 <= i < r + 1 ==> Marked(c, DayKey(d, i))
  {
    forall i | 0 <= i < r + 1
      ensures Marked(c, DayKey(d, i))
    {
      if i > 0 {
        DayKeyPred(d, i - 1);
      }
    }
  }

  /** The day that ends the run before `d` also ends the run from `d`. */
  lemma RunExtendEnd(c: map<string, bool>, d: Date, r: nat)
    requires ValidDate(d) && !Marked(c - {Format(d)}, DayKey(Pred(d), r))
    ensures !Marked(c, DayKey(d, r + 1))
  {
    DayKeyPred(d, r);
    if DayKey(d, r + 1) == Format(d) {
      DateStringInjective(d, -(r + 1), 0);
    }
  }

  /**
   * A run of `r` completed days ending the day before `d`, in the map
   * without `d`'s key, becomes a run of `r + 1` days ending at `d` once
   * `d` is completed.
   */
  lemma RunExtend(c: map<string, bool>, d: Date, r: nat)
    requires ValidDate(d) && Marked(c, Format(d))
    requires IsCurrentRun(c - {Format(d)}, Pred(d), r)
    ensures IsCurrentRun(c, d, r + 1)
  {
    RunExtendDays(c, d, r);
    RunExtendEnd(c, d, r);
  }

  /** The walk back from `d` stops exactly at the end of the run of completed days. */
  lemma {:induction false} StreakEndingAtRun(c: map<string, bool>, d: Date)
    requires ValidDate(d)
    ensures IsCurrentRun(c, d, StreakEndingAt(c, d))
    decreases |c|
  {
    var k := Format(d);
    if Marked(c, k) {
      TotalRemoveMarked(c, k);
      StreakEndingAtRun(c - {k}, Pred(d));
      RunExtend(c, d, StreakEndingAt(c - {k}, Pred(d)));
    } else {
      assert DayKey(d, 0) == k;
    }
  }

  /** At most one length is the length of the run ending today. */
  lemma RunUnique(c: map<string, bool>, today: Date, k: nat, r: nat)
    requires ValidDate(today) && IsCurrentRun(c, today, k) && IsCurrentRun(c, today, r)
    ensures k == r
  {
  }

  /**
   * currentStreak is exactly the length of the run ending today: zero when
   * today is not completed, otherwise the number of consecutive completed
   * days back from today, the day before which is not completed.
   */
  lemma CurrentStreakIsRun(c: map<string, bool>, today: Date, k: nat)
    requires ValidDate(today)
    ensures CurrentStreakOf(c, today) == k <==> IsCurrentRun(c, today, k)
  {
    StreakEndingAtRun(c, today);
    if IsCurrentRun(c, today, k) {
      RunUnique(c, today, k, CurrentStreakOf(c, today));
    }
  }

  /** The while loop of calculateHabitStats that counts the current streak. */
  method CurrentStreak(c: map<string, bool>, today: Date) returns (streak: nat)
    requires ValidDate(today)
    ensures streak == CurrentStreakOf(c, today)
    ensures IsCurrentRun(c, today, streak) && streak <= TotalCompletions(c)
  {
    streak := 0;
    var date := today;
    while Marked(c, Format(date))
      invariant ValidDate(date)
      invariant streak + StreakEndingAt(c, date) == StreakEndingAt(c, today)
      decreases StreakEndingAt(c, date)
    {
      StreakStep(c, date);
      streak := streak + 1;
      date := Pred(date);
    }
    CurrentStreakIsRun(c, today, streak);
  }

  // ---------------------------------------------------------------------
  // Longest streak (habitUtils.ts lines 19-30)
  // ---------------------------------------------------------------------

  /** The values of `c` in the order of `keys`. */
  function ValuesInOrder(keys: seq<string>, c: map<string, bool>): (v: seq<bool>)
    requires forall k :: k in keys ==> k in c
    ensures |v| == |keys| && forall i :: 0 <= i < |keys| ==> v[i] == c[keys[i]]
  {
    seq(|keys|, i requires 0 <= i < |keys| => c[keys[i]])
  }

  /** The number of true entries of `v`. */
  function CountTrue(v: seq<bool>): (n: nat)
    ensures n <= |v|
  {
    if v == [] then 0 else CountTrue(v[..|v| - 1]) + (if v[|v| - 1] then 1 else 0)
  }

  /** tempStreak after a scan of `v`: the number of trailing true entries. */
  function TrailingRun(v: seq<bool>): (t: nat)
    ensures t <= |v|
    ensures forall i :: |v| - t <= i < |v| ==> v[i]
    ensures t < |v| ==> !v[|v| - 1 - t]
  {
    if v == [] || !v[|v| - 1] then 0 else 1 + TrailingRun(v[..|v| - 1])
  }

  /** longestStreak after a scan of `v`. */
  function LongestRun(v: seq<bool>): (r: nat)
    ensures r <= |v|
  {
    if v == [] then 0
    else
      var before := LongestRun(v[..|v| - 1]);
      var t := TrailingRun(v);
      if before < t then t else before
  }

  /** Entries `i` up to (not including) `j` of `v` are all true. */
  ghost predicate AllTrue(v: seq<bool>, i: int, j: int) {
    0 <= i <= j <= |v| && forall t :: i <= t < j ==> v[t]
  }

  /** `r` is the length of a longest block of consecutive true entries. */
  ghost predicate IsLongestRun(v: seq<bool>, r: nat) {
    (exists i, j :: AllTrue(v, i, j) && j - i == r) &&
    (forall i, j :: AllTrue(v, i, j) ==> j - i <= r)
  }

  /** The scan computes the longest block of consecutive true entries. */
  lemma {:induction false} LongestRunSpec(v: seq<bool>)
    ensures IsLongestRun(v, LongestRun(v))
  {
    if v == [] {
      assert AllTrue(v, 0, 0);
    } else {
      var p := v[..|v| - 1];
      LongestRunSpec(p);
      var t := TrailingRun(v);
      assert AllTrue(v, |v| - t, |v|);
      var i0, j0 :| AllTrue(p, i0, j0) && j0 - i0 == LongestRun(p);
      assert AllTrue(v, i0, j0);
      forall i, j | AllTrue(v, i, j)
        ensures j - i <= LongestRun(v)
      {
        if j < |v| {
          assert AllTrue(p, i, j);
        }
      }
    }
  }

  lemma {:induction false} TrailingRunAtMostCount(v: seq<bool>)
    ensures TrailingRun(v) <= CountTrue(v)
  {
    if v != [] {
      TrailingRunAtMostCount(v[..|v| - 1]);
    }
  }

  /** A run is never longer than the number of true entries. */
  lemma {:induction false} LongestRunAtMostCount(v: seq<bool>)
    ensures LongestRun(v) <= CountTrue(v)
  {
    if v != [] {
      LongestRunAtMostCount(v[..|v| - 1]);
      TrailingRunAtMostCount(v);
    }
  }

  /** With no false entry, the whole scan is one run. */
  lemma {:induction false} LongestRunAllTrue(v: seq<bool>)
    requires forall i :: 0 <= i < |v| ==> v[i]
    ensures LongestRun(v) == |v| == CountTrue(v)
  {
    if v != [] {
      LongestRunAllTrue(v[..|v| - 1]);
      assert TrailingRun(v) == |v|;
    }
  }

  /** The longest run is zero exactly when there is no true entry. */
  lemma {:induction false} LongestRunZero(v: seq<bool>)
    ensures LongestRun(v) == 0 <==> CountTrue(v) == 0
  {
    LongestRunAtMostCount(v);
    if v != [] {
      LongestRunZero(v[..|v| - 1]);
    }
  }

  /** Keys with no duplicates. */
  predicate NoDuplicates(keys: seq<string>) {
    forall i, j :: 0 <= i < j < |keys| ==> keys[i] != keys[j]
  }

  /** Dropping the last key drops the last value. */
  lemma ValuesInOrderInit(keys: seq<string>, c: map<string, bool>)
    requires keys != [] && forall k :: k in keys ==> k in c
    ensures var v := ValuesInOrder(keys, c);
      v[..|v| - 1] == ValuesInOrder(keys[..|keys| - 1], c) && v[|v| - 1] == c[keys[|keys| - 1]]
  {
  }

  /** The completed keys of a listing, split at its last key. */
  lemma MarkedListedSnoc(ks: seq<string>, x: string, c: map<string, bool>)
    requires x !in ks
    ensures |set k | k in ks + [x] && Marked(c, k)| ==
      |set k | k in ks && Marked(c, k)| + (if Marked(c, x) then 1 else 0)
  {
    var s, s' := set k | k in ks + [x] && Marked(c, k), set k | k in ks && Marked(c, k);
    if Marked(c, x) {
      assert s == s' + {x};
    } else {
      assert s == s';
    }
  }

  /** Counting true values along any duplicate-free listing of keys gives the true keys listed. */
  lemma {:induction false} CountTrueValues(keys: seq<string>, c: map<string, bool>)
    requires forall k :: k in keys ==> k in c
    requires NoDuplicates(keys)
    ensures CountTrue(ValuesInOrder(keys, c)) == |set k | k in keys && Marked(c, k)|
  {
    if keys != [] {
      var ks, x := keys[..|keys| - 1], keys[|keys| - 1];
      assert keys == ks + [x];
      assert NoDuplicates(ks) by {
        assert forall i :: 0 <= i < |ks| ==> ks[i] == keys[i];
      }
      assert x !in ks by {
        assert forall i :: 0 <= i < |ks| ==> ks[i] == keys[i] != x;
      }
      CountTrueValues(ks, c);
      ValuesInOrderInit(keys, c);
      MarkedListedSnoc(ks, x, c);
    }
  }

  /**
   * totalCompletions does not depend on the order in which the entries are
   * visited: counting true values along any listing of the keys, each key
   * once, gives it.
   */
  lemma TotalCompletionsAnyOrder(c: map<string, bool>, keys: seq<string>)
    requires NoDuplicates(keys) && forall k :: k in keys <==> k in c
    ensures CountTrue(ValuesInOrder(keys, c)) == TotalCompletions(c)
  {
    CountTrueValues(keys, c);
    assert (set k | k in keys && Marked(c, k)) == TrueKeys(c);
  }

  lemma SortedNoDuplicates(s: seq<string>)
    requires StrictlyIncreasing(s)
    ensures NoDuplicates(s)
  {
    forall i, j | 0 <= i < j < |s|
      ensures s[i] != s[j]
    {
      LexIrreflexive(s[i]);
    }
  }

  /** The values of `c` in sorted key order: what the for loop visits. */
  function SortedValues(c: map<string, bool>): (v: seq<bool>)
  {
    ValuesInOrder(SortedKeys(c.Keys), c)
  }

  /** longestStreak of calculateHabitStats. */
  function LongestStreakOf(c: map<string, bool>): (r: nat)
    ensures r <= |c|
  {
    LongestRun(SortedValues(c))
  }

  /** One more entry scanned: how tempStreak and longestStreak move. */
  lemma ScanStep(v: seq<bool>, n: nat)
    requires n < |v|
    ensures TrailingRun(v[..n + 1]) == if v[n] then TrailingRun(v[..n]) + 1 else 0
    ensures var t := TrailingRun(v[..n + 1]);
      LongestRun(v[..n + 1]) == if LongestRun(v[..n]) < t then t else LongestRun(v[..n])
  {
    assert v[..n + 1][..n] == v[..n];
  }

  /** The for loop of calculateHabitStats over the sorted keys. */
  method LongestStreak(c: map<string, bool>) returns (longestStreak: nat)
    ensures longestStreak == LongestStreakOf(c)
  {
    var allDates := SortedKeys(c.Keys);
    ghost var v := SortedValues(c);
    longestStreak := 0;
    var tempStreak := 0;
    for n := 0 to |allDates|
      invariant tempStreak == TrailingRun(v[..n])
      invariant longestStreak == LongestRun(v[..n])
    {
      ScanStep(v, n);
      assert v[n] == c[allDates[n]];
      if c[allDates[n]] {
        tempStreak := tempStreak + 1;
        longestStreak := if longestStreak < tempStreak then tempStreak else longestStreak;
      } else {
        tempStreak := 0;
      }
    }
    assert v[..|allDates|] == v;
  }

  /**
   * longestStreak counts only recorded entries: it is at most
   * totalCompletions, equals it when no entry is false, and is zero
   * exactly when no entry is true.
   */
  lemma LongestStreakBounds(c: map<string, bool>)
    ensures LongestStreakOf(c) <= TotalCompletions(c)
    ensures (forall k :: k in c ==> c[k]) ==> LongestStreakOf(c) == TotalCompletions(c)
    ensures LongestStreakOf(c) == 0 <==> TotalCompletions(c) == 0
  {
    var keys := SortedKeys(c.Keys);
    var v := SortedValues(c);
    SortedKeysIncreasing(c.Keys);
    SortedNoDuplicates(keys);
    TotalCompletionsAnyOrder(c, keys);
    LongestRunAtMostCount(v);
    LongestRunZero(v);
    if forall k :: k in c ==> c[k] {
      LongestRunAllTrue(v);
    }
  }

  /** A key in the map that is well formed names a day with a four-digit year. */
  lemma WellFormedDay(c: map<string, bool>, d: Date)
    requires forall k :: k in c ==> WellFormedKey(k)
    requires ValidDate(d) && Format(d) in c
    ensures FourDigitYear(d)
  {
    var e :| ValidDate(e) && FourDigitYear(e) && Format(e) == Format(d);
    FormatInjective(e, d);
  }

  /** When every key is well formed, no key sorts strictly between the keys of a day and the next day. */
  lemma NoKeyBetween(c: map<string, bool>, a: Date)
    requires forall k :: k in c ==> WellFormedKey(k)
    requires ValidDate(a) && FourDigitYear(a) && FourDigitYear(Succ(a))
    ensures forall k :: k in c ==> !(LexLess(Format(a), k) && LexLess(k, Format(Succ(a))))
  {
    forall k | k in c
      ensures !(LexLess(Format(a), k) && LexLess(k, Format(Succ(a))))
    {
      var e :| ValidDate(e) && FourDigitYear(e) && Format(e) == k;
      FormatOrder(a, e);
      FormatOrder(e, Succ(a));
      SuccAdjacent(a, e);
    }
  }

  /**
   * The keys of `r` consecutive days ending today, oldest first; when all
   * of them are recorded and every key is well formed, no other key sorts
   * between two neighbours of them.
   */
  lemma WindowGapless(c: map<string, bool>, today: Date, r: int)
    requires forall k :: k in c ==> WellFormedKey(k)
    requires ValidDate(today) && forall k :: k in LastNDays(today, r) ==> k in c
    ensures Gapless(SortedKeys(c.Keys), LastNDays(today, r))
  {
    var w := LastNDays(today, r);
    forall j | 0 <= j < r - 1
      ensures LexLess(w[j], w[j + 1])
      ensures forall z :: z in SortedKeys(c.Keys) ==> !(LexLess(w[j], z) && LexLess(z, w[j + 1]))
    {
      var d := AddDays(today, j - (r - 1));
      LastNDaysAt(today, r, j);
      LastNDaysAt(today, r, j + 1);
      AddDaysStep(today, j - (r - 1));
      assert w[j] == Format(d) && w[j + 1] == Format(Succ(d));
      WellFormedDay(c, d);
      WellFormedDay(c, Succ(d));
      FormatOrder(d, Succ(d));
      NoKeyBetween(c, d);
    }
  }

  /** The last currentStreak days are all completed. */
  lemma CurrentRunWindow(c: map<string, bool>, today: Date)
    requires ValidDate(today)
    ensures forall k :: k in LastNDays(today, CurrentStreakOf(c, today)) ==> Marked(c, k)
  {
    var r := CurrentStreakOf(c, today);
    var w := LastNDays(today, r);
    StreakEndingAtRun(c, today);
    forall k | k in w
      ensures Marked(c, k)
    {
      var j :| 0 <= j < r && w[j] == k;
      LastNDaysAt(today, r, j);
      assert k == DayKey(today, r - 1 - j);
    }
  }

  /** Completed keys that form a gapless block in sorted order make a run that long. */
  lemma GaplessBlockRun(c: map<string, bool>, w: seq<string>)
    requires |w| > 0 && forall k :: k in w ==> Marked(c, k)
    requires Gapless(SortedKeys(c.Keys), w)
    ensures LongestStreakOf(c) >= |w|
  {
    var s, v := SortedKeys(c.Keys), SortedValues(c);
    SortedKeysIncreasing(c.Keys);
    assert w[0] in w && w[0] in s;
    var p :| 0 <= p < |s| && s[p] == w[0];
    SortedBlockSlice(s, w, p);
    forall t | p <= t < p + |w|
      ensures v[t]
    {
      assert s[t] == s[p..p + |w|][t - p];
      assert s[t] in w;
    }
    assert AllTrue(v, p, p + |w|);
    LongestRunSpec(v);
  }

  /**
   * When every key is a well-formed date key, longestStreak is at least
   * currentStreak: the current run appears as a block of consecutive true
   * entries in sorted key order.
   */
  lemma LongestAtLeastCurrent(c: map<string, bool>, today: Date)
    requires ValidDate(today) && forall k :: k in c ==> WellFormedKey(k)
    ensures LongestStreakOf(c) >= CurrentStreakOf(c, today)
  {
    var r := CurrentStreakOf(c, today);
    if r > 0 {
      CurrentRunWindow(c, today);
      WindowGapless(c, today, r);
      GaplessBlockRun(c, LastNDays(today, r));
    }
  }

  /** The key of a day in the first nine days of January 2024. */
  lemma EarlyJanuaryKey(d: nat)
    requires 1 <= d <= 9
    ensures Format(Date(2024, 1, d)) == "2024-01-0" + [DigitChar(d)]
  {
    assert Pad(2024, 4) == "2024" by {
      assert Pad(2, 1) == "2";
      assert Pad(20, 2) == Pad(2, 1) + "0";
      assert Pad(202, 3) == Pad(20, 2) + "2";
    }
    assert Pad(1, 2) == Pad(0, 1) + "1";
    assert Pad(d, 2) == Pad(0, 1) + [DigitChar(d)];
  }

  /**
   * The longest streak counts completed keys that are neighbours in sorted
   * order, not days that are neighbours in the calendar: completions on
   * 2024-01-01 and 2024-01-03 form a longest streak of 2.
   */
  lemma SparseLongestExample()
    ensures LongestStreakOf(map["2024-01-01" := true, "2024-01-03" := true]) == 2
  {
    assert LexLess("2024-01-01", "2024-01-03");
    TwoCompletionsLongest("2024-01-01", "2024-01-03");
  }

  /** Two completed keys, whatever days they name, form a longest streak of 2. */
  lemma TwoCompletionsLongest(a: string, b: string)
    requires LexLess(a, b)
    ensures LongestStreakOf(map[a := true, b := true]) == 2
  {
    var c := map[a := true, b := true];
    LexIrreflexive(a);
    assert c.Keys == {a, b};
    TwoKeysSorted(a, b);
    var v := ValuesInOrder([a, b], c);
    assert v == [true, true];
    LongestRunTwo();
  }

  lemma TwoKeysSorted(a: string, b: string)
    requires LexLess(a, b)
    ensures SortedKeys({a, b}) == [a, b]
  {
    SortedKeysUnique({a, b}, [a, b]);
  }

  lemma LongestRunTwo()
    ensures LongestRun([true, true]) == 2
  {
    assert [true, true][..1] == [true];
    assert LongestRun([true]) == 1;
  }

  /** With the same completions the current streak on 2024-01-03 is 1. */
  lemma SparseCurrentExample()
    ensures CurrentStreakOf(map["2024-01-01" := true, "2024-01-03" := true], Date(2024, 1, 3)) == 1
  {
    var c := map["2024-01-01" := true, "2024-01-03" := true];
    EarlyJanuaryKey(3);
    EarlyJanuaryKey(2);
    assert Format(Date(2024, 1, 3)) == "2024-01-03";
    assert Format(Date(2024, 1, 2)) == "2024-01-02";
    var c' := c - {"2024-01-03"};
    assert Pred(Date(2024, 1, 3)) == Date(2024, 1, 2);
    assert StreakEndingAt(c', Date(2024, 1, 2)) == 0;
    assert StreakEndingAt(c, Date(2024, 1, 3)) == 1 + StreakEndingAt(c', Date(2024, 1, 2));
  }

  // ---------------------------------------------------------------------
  // Completion rate (habitUtils.ts lines 36-48)
  // ---------------------------------------------------------------------

  /** `filter(date => completions[date]).length`: how many of `days` are completed. */
  function CountMarked(c: map<string, bool>, days: seq<string>): (n: nat)
    ensures n <= |days|
  {
    if days == [] then 0
    else CountMarked(c, days[..|days| - 1]) + (if Marked(c, days[|days| - 1]) then 1 else 0)
  }

  /**
   * `Math.round(x / 30 * 100)`: the integer nearest to 10x/3. The
   * fraction of 10x/3 is 0, 1/3 or 2/3, so there is never a tie.
   */
  function RatePercent(x: nat): (r: nat)
    ensures 20 * x - 3 < 6 * r <= 20 * x + 3
  {
    (20 * x + 3) / 6
  }

  /** The rate is a percentage: 0 exactly when no day is completed, 100 exactly when all 30 are. */
  lemma RatePercentRange(x: nat)
    requires x <= 30
    ensures 0 <= RatePercent(x) <= 100
    ensures RatePercent(x) == 0 <==> x == 0
    ensures RatePercent(x) == 100 <==> x == 30
  {
  }

  /** More completed days never give a lower rate. */
  lemma RatePercentMonotone(x: nat, y: nat)
    requires x <= y
    ensures RatePercent(x) <= RatePercent(y)
  {
  }

  /** Over a list without repeats, the count is the number of distinct completed keys listed. */
  lemma {:induction false} CountMarkedDistinct(c: map<string, bool>, days: seq<string>)
    requires NoDuplicates(days)
    ensures CountMarked(c, days) == |set k | k in days && Marked(c, k)|
  {
    if days != [] {
      var ds, x := days[..|days| - 1], days[|days| - 1];
      assert days == ds + [x];
      assert NoDuplicates(ds) by {
        assert forall i :: 0 <= i < |ds| ==> ds[i] == days[i];
      }
      assert x !in ds by {
        assert forall i :: 0 <= i < |ds| ==> ds[i] == days[i] != x;
      }
      CountMarkedDistinct(c, ds);
      MarkedListedSnoc(ds, x, c);
    }
  }

  /** The count is the whole list exactly when every listed day is completed. */
  lemma {:induction false} CountMarkedAll(c: map<string, bool>, days: seq<string>)
    ensures CountMarked(c, days) == |days| <==> forall k :: k in days ==> Marked(c, k)
  {
    if days != [] {
      var ds, x := days[..|days| - 1], days[|days| - 1];
      CountMarkedAll(c, ds);
      assert forall k :: k in days <==> k in ds || k == x by {
        assert days == ds + [x];
      }
    }
  }

  /** The count is 0 exactly when no listed day is completed. */
  lemma {:induction false} CountMarkedNone(c: map<string, bool>, days: seq<string>)
    ensures CountMarked(c, days) == 0 <==> forall k :: k in days ==> !Marked(c, k)
  {
    if days != [] {
      var ds, x := days[..|days| - 1], days[|days| - 1];
      CountMarkedNone(c, ds);
      assert forall k :: k in days <==> k in ds || k == x by {
        assert days == ds + [x];
      }
    }
  }

  /** completionRate of calculateHabitStats. */
  function CompletionRateOf(c: map<string, bool>, today: Date): (r: nat)
    requires ValidDate(today)
    ensures r <= 100
  {
    var x := CountMarked(c, LastNDays(today, 30));
    RatePercentRange(x);
    RatePercent(x)
  }

  /** completionRate is the rounded percentage of distinct completed days among the last 30. */
  lemma CompletionRateCounts(c: map<string, bool>, today: Date)
    requires ValidDate(today)
    ensures CompletionRateOf(c, today) == RatePercent(|set k | k in LastNDays(today, 30) && Marked(c, k)|)
  {
    LastNDaysDistinct(today, 30);
    CountMarkedDistinct(c, LastNDays(today, 30));
  }

  /** Each of the last 30 keys is the key of one of the days today-29 up to today. */
  lemma LastThirtyKeys(today: Date)
    requires ValidDate(today)
    ensures forall k :: k in LastNDays(today, 30) <==> exists i :: 0 <= i < 30 && k == DayKey(today, i)
  {
    var days := LastNDays(today, 30);
    forall k | k in days
      ensures exists i :: 0 <= i < 30 && k == DayKey(today, i)
    {
      var j :| 0 <= j < 30 && days[j] == k;
      LastNDaysAt(today, 30, j);
      assert k == DayKey(today, 29 - j);
    }
    forall i | 0 <= i < 30
      ensures DayKey(today, i) in days
    {
      LastNDaysAt(today, 30, 29 - i);
      assert days[29 - i] == DayKey(today, i);
    }
  }

  /**
   * completionRate is a percentage: 100 exactly when each of the last 30
   * days is completed and 0 exactly when none of them is.
   */
  lemma CompletionRateExtremes(c: map<string, bool>, today: Date)
    requires ValidDate(today)
    ensures CompletionRateOf(c, today) <= 100
    ensures CompletionRateOf(c, today) == 100 <==> forall i :: 0 <= i < 30 ==> Marked(c, DayKey(today, i))
    ensures CompletionRateOf(c, today) == 0 <==> forall i :: 0 <= i < 30 ==> !Marked(c, DayKey(today, i))
  {
    var days := LastNDays(today, 30);
    RatePercentRange(CountMarked(c, days));
    CountMarkedAll(c, days);
    CountMarkedNone(c, days);
    LastThirtyKeys(today);
  }

  /**
   * The last30Days loop of calculateHabitStats, which builds the same keys
   * as getLastNDays(30), and the rate computed from them.
   */
  method CompletionRate(c: map<string, bool>, today: Date) returns (completionRate: nat)
    requires ValidDate(today)
    ensures completionRate == CompletionRateOf(c, today)
    ensures completionRate <= 100
  {
    var dateString := KeysFrom(today);
    var last30Days := [];
    var i := 29;
    while i >= 0
      invariant -1 <= i <= 29 && last30Days == Window(dateString, -29, 29 - i)
    {
      WindowPush(dateString, 30, i, last30Days);
      last30Days := last30Days + [dateString(-i)];
      i := i - 1;
    }
    assert last30Days == LastNDays(today, 30);
    var completionsInLast30Days := CountMarked(c, last30Days);
    completionRate := RatePercent(completionsInLast30Days);
    RatePercentRange(completionsInLast30Days);
  }

  // ---------------------------------------------------------------------
  // calculateHabitStats (habitUtils.ts lines 4-50)
  // ---------------------------------------------------------------------

  /** The four statistics; both streaks are at most the total and the rate is a percentage. */
  function StatsOf(c: map<string, bool>, today: Date): (s: HabitStats)
    requires ValidDate(today)
    ensures 0 <= s.currentStreak <= s.totalCompletions && 0 <= s.longestStreak <= s.totalCompletions
    ensures 0 <= s.completionRate <= 100
  {
    LongestStreakBounds(c);
    HabitStats(CurrentStreakOf(c, today), LongestStreakOf(c), TotalCompletions(c), CompletionRateOf(c, today))
  }

  /** A habit with no completions has all four statistics 0. */
  lemma EmptyStats(today: Date)
    requires ValidDate(today)
    ensures StatsOf(map[], today) == HabitStats(0, 0, 0, 0)
  {
    var c: map<string, bool> := map[];
    assert TrueKeys(c) == {};
    CountMarkedNone(c, LastNDays(today, 30));
    LongestStreakBounds(c);
  }

  /** calculateHabitStats, for the day `today`. */
  method CalculateHabitStats(habit: Habit, today: Date) returns (stats: HabitStats)
    requires ValidDate(today)
    ensures stats == StatsOf(habit.completions, today)
    ensures 0 <= stats.currentStreak <= stats.totalCompletions
    ensures 0 <= stats.longestStreak <= stats.totalCompletions
    ensures 0 <= stats.completionRate <= 100
  {
    var completions := habit.completions;
    var currentStreak := CurrentStreak(completions, today);
    var longestStreak := LongestStreak(completions);
    var totalCompletions := TotalCompletions(completions);
    var completionRate := CompletionRate(completions, today);
    LongestStreakBounds(completions);
    stats := HabitStats(currentStreak, longestStreak, totalCompletions, completionRate);
  }

  // ---------------------------------------------------------------------
  // getStreakEmoji (habitUtils.ts lines 52-60)
  // ---------------------------------------------------------------------

  /** The streak lengths at which a new emoji is earned, lowest first. */
  const Thresholds: seq<int> := [3, 7, 14, 30, 50, 100]

  /** The emoji for each number of thresholds reached. */
  const Tiers: seq<string> := ["\U{1F331}", "\U{1F4AA}", "\U{1F31F}", "⚡", "\U{1F525}", "\U{1F48E}", "\U{1F3C6}"]

  /** getStreakEmoji: always one of the seven tier emojis. */
  function StreakEmoji(streak: int): (e: string)
    ensures e in Tiers
  {
    if streak >= 100 then "\U{1F3C6}"
    else if streak >= 50 then "\U{1F48E}"
    else if streak >= 30 then "\U{1F525}"
    else if streak >= 14 then "⚡"
    else if streak >= 7 then "\U{1F31F}"
    else if streak >= 3 then "\U{1F4AA}"
    else "\U{1F331}"
  }

  /** How many of `ts` are at most `streak`. */
  function CountReached(ts: seq<int>, streak: int): (n: nat)
    ensures n <= |ts|
  {
    if ts == [] then 0 else (if ts[0] <= streak then 1 else 0) + CountReached(ts[1..], streak)
  }

  /** getStreakEmoji gives the emoji of the number of thresholds the streak reaches, for every integer. */
  lemma StreakEmojiTier(streak: int)
    ensures StreakEmoji(streak) == Tiers[CountReached(Thresholds, streak)]
  {
    var t6: seq<int> := [];
    var t5, t4, t3 := [100] + t6, [50] + [100] + t6, [30] + [50] + [100] + t6;
    var t2, t1 := [14] + t3, [7] + [14] + t3;
    var t0 := [3] + t1;
    assert t5[1..] == t6 && t4[1..] == t5 && t3[1..] == t4;
    assert t2[1..] == t3 && t1[1..] == t2 && t0[1..] == t1;
    assert t0 == Thresholds;
    assert CountReached(t5, streak) == if streak >= 100 then 1 else 0;
    assert CountReached(t4, streak) == if streak >= 100 then 2 else if streak >= 50 then 1 else 0;
    assert CountReached(t3, streak) == CountReached(t4, streak) + if streak >= 30 then 1 else 0;
    assert CountReached(t2, streak) == CountReached(t3, streak) + if streak >= 14 then 1 else 0;
    assert CountReached(t1, streak) == CountReached(t2, streak) + if streak >= 7 then 1 else 0;
    assert CountReached(t0, streak) == CountReached(t1, streak) + if streak >= 3 then 1 else 0;
  }

  lemma {:induction false} CountReachedMonotone(ts: seq<int>, a: int, b: int)
    requires a <= b
    ensures CountReached(ts, a) <= CountReached(ts, b)
  {
    if ts != [] {
      CountReachedMonotone(ts[1..], a, b);
    }
  }

  /** A longer streak never earns a lower tier; the seven emojis are distinct. */
  lemma StreakTierMonotone(a: int, b: int)
    requires a <= b
    ensures CountReached(Thresholds, a) <= CountReached(Thresholds, b)
    ensures forall i, j :: 0 <= i < j < |Tiers| ==> Tiers[i] != Tiers[j]
  {
    CountReachedMonotone(Thresholds, a, b);
  }
}
