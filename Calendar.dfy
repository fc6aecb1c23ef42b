/**
 * Calendar-day arithmetic of the proleptic Gregorian calendar.
 *
 * The source moves a JavaScript `Date` by whole days with
 * `date.setDate(date.getDate() + k)`, which rolls over month and year
 * boundaries. Here a date is its (year, month, day) triple and that
 * rolling is `Succ`, `Pred` and `AddDays`.
 */
module Calendar {

  /** A calendar date; years use astronomical numbering (year 0 is 1 BC). */
  datatype Date = Date(year: int, month: int, day: int)

  predicate IsLeapYear(y: int) {
    y % 4 == 0 && (y % 100 != 0 || y % 400 == 0)
  }

  function DaysInMonth(y: int, m: int): (n: int)
    requires 1 <= m <= 12
    ensures 28 <= n <= 31
    ensures n == 29 <==> m == 2 && IsLeapYear(y)
  {
    if m == 2 then (if IsLeapYear(y) then 29 else 28)
    else if m == 4 || m == 6 || m == 9 || m == 11 then 30
    else 31
  }

  /** A triple that names a real day of the calendar. */
  predicate ValidDate(d: Date) {
    1 <= d.month <= 12 && 1 <= d.day <= DaysInMonth(d.year, d.month)
  }

  /** Chronological order: by year, then month, then day. */
  predicate Before(a: Date, b: Date) {
    a.year < b.year ||
    (a.year == b.year && (a.month < b.month || (a.month == b.month && a.day < b.day)))
  }

  /** The next calendar day. */
  function Succ(d: Date): (r: Date)
    requires ValidDate(d)
    ensures ValidDate(r) && Before(d, r)
  {
    if d.day < DaysInMonth(d.year, d.month) then Date(d.year, d.month, d.day + 1)
    else if d.month < 12 then Date(d.year, d.month + 1, 1)
    else Date(d.year + 1, 1, 1)
  }

  /** The previous calendar day. */
  function Pred(d: Date): (r: Date)
    requires ValidDate(d)
    ensures ValidDate(r) && Before(r, d)
  {
    if d.day > 1 then Date(d.year, d.month, d.day - 1)
    else if d.month > 1 then Date(d.year, d.month - 1, DaysInMonth(d.year, d.month - 1))
    else Date(d.year - 1, 12, 31)
  }

  /** No valid date lies strictly between a day and its predecessor. */
  lemma PredAdjacent(d: Date, e: Date)
    requires ValidDate(d) && ValidDate(e)
    ensures !(Before(Pred(d), e) && Before(e, d))
  {
  }

  /** Pred and Succ undo each other. */
  lemma PredSuccInverse(d: Date)
    requires ValidDate(d)
    ensures Pred(Succ(d)) == d && Succ(Pred(d)) == d
  {
  }

  /** The date `k` calendar days after `d` (before it when `k` is negative). */
  function AddDays(d: Date, k: int): (r: Date)
    requires ValidDate(d)
    ensures ValidDate(r)
    decreases if k < 0 then -k else k
  {
    if k == 0 then d
    else if k > 0 then Succ(AddDays(d, k - 1))
    else Pred(AddDays(d, k + 1))
  }

  /** Moving by `j` days and then by `k` days is moving by `j + k` days. */
  lemma {:induction false} AddDaysAdditive(d: Date, j: int, k: int)
    requires ValidDate(d)
    ensures AddDays(AddDays(d, j), k) == AddDays(d, j + k)
    decreases if k < 0 then -k else k
  {
    if k > 0 {
      AddDaysAdditive(d, j, k - 1);
      if j + k - 1 < 0 {
        PredSuccInverse(AddDays(d, j + k));
      }
    } else if k < 0 {
      AddDaysAdditive(d, j, k + 1);
      if j + k + 1 > 0 {
        PredSuccInverse(AddDays(d, j + k));
      }
    }
  }

  /** Offsets are strictly monotone: a smaller offset gives an earlier day. */
  lemma {:induction false} AddDaysMonotone(d: Date, j: int, k: int)
    requires ValidDate(d) && j < k
    ensures Before(AddDays(d, j), AddDays(d, k))
    decreases k - j
  {
    if j + 1 < k {
      AddDaysMonotone(d, j, k - 1);
      AddDaysStep(d, k - 1);
    } else {
      AddDaysStep(d, j);
    }
  }

  /** One more day of offset is the next calendar day. */
  lemma AddDaysStep(d: Date, k: int)
    requires ValidDate(d)
    ensures AddDays(d, k + 1) == Succ(AddDays(d, k))
  {
    if k < 0 {
      PredSuccInverse(AddDays(d, k + 1));
    }
  }

  /** Between the days `k` and `k + 1` days after `d` there is no other valid day. */
  lemma AddDaysAdjacent(d: Date, k: int, e: Date)
    requires ValidDate(d) && ValidDate(e)
    ensures !(Before(AddDays(d, k), e) && Before(e, AddDays(d, k + 1)))
  {
    AddDaysStep(d, k);
    PredSuccInverse(AddDays(d, k));
    PredAdjacent(AddDays(d, k + 1), e);
  }

  /** Counting from the day before `d` shifts every offset by one. */
  lemma AddDaysPred(d: Date, k: int)
    requires ValidDate(d)
    ensures AddDays(Pred(d), k) == AddDays(d, k - 1)
  {
    assert AddDays(d, -1) == Pred(d);
    AddDaysAdditive(d, -1, k);
  }

  /** No valid date lies strictly between a day and the next one. */
  lemma SuccAdjacent(d: Date, e: Date)
    requires ValidDate(d) && ValidDate(e)
    ensures !(Before(d, e) && Before(e, Succ(d)))
  {
    PredSuccInverse(d);
    PredAdjacent(Succ(d), e);
  }
}
