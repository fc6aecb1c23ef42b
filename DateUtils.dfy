/**
 * Date keys and windows of days (src/utils/dateUtils.ts).
 *
 * A date key is the `YYYY-MM-DD` prefix of `Date.prototype.toISOString`.
 * The current day is a parameter `today` instead of a clock reading.
 */
module DateUtils {
  import opened Calendar
  import opened KeyOrder

  function Pow10(w: nat): (p: nat)
    ensures p >= 1
  {
    if w == 0 then 1 else 10 * Pow10(w - 1)
  }

  function DigitChar(n: int): (c: char)
    requires 0 <= n < 10
    ensures '0' <= c <= '9' && c as int - '0' as int == n
  {
    (48 + n) as char
  }

  /** The decimal digits of `n`, left-padded with zeros to at least `w` characters. */
  function Pad(n: nat, w: nat): (s: string)
    ensures |s| >= 1 && '0' <= s[0] <= '9'
    ensures w >= 1 && n < Pow10(w) ==> |s| == w
    decreases n + w
  {
    if n < 10 && w <= 1 then [DigitChar(n)]
    else Pad(n / 10, if w == 0 then 0 else w - 1) + [DigitChar(n % 10)]
  }

  /**
   * The year field of `toISOString`: four digits for years 0 to 9999,
   * otherwise a sign and at least six digits.
   */
  function YearText(y: int): (s: string)
    ensures 0 <= y <= 9999 ==> |s| == 4
    ensures |s| >= 1 && ('0' <= s[0] <= '9' <==> 0 <= y <= 9999) && (s[0] == '+' <==> y > 9999)
  {
    if 0 <= y <= 9999 then Pad(y, 4)
    else if y > 9999 then "+" + Pad(y, 6)
    else "-" + Pad(-y, 6)
  }

  /** The `-MM-DD` part of a key. */
  function MonthDayText(m: nat, d: nat): (s: string)
    requires 1 <= m <= 12 && 1 <= d <= 31
    ensures |s| == 6 && s[0] == '-' && s[3] == '-'
    ensures s[1..3] == Pad(m, 2) && s[4..] == Pad(d, 2)
  {
    assert Pow10(2) == 100;
    "-" + Pad(m, 2) + "-" + Pad(d, 2)
  }

  /** formatDate: the date key of a day. */
  function Format(d: Date): (k: string)
    requires ValidDate(d)
    ensures 0 <= d.year <= 9999 ==> |k| == 10
  {
    YearText(d.year) + MonthDayText(d.month, d.day)
  }

  predicate FourDigitYear(d: Date) {
    0 <= d.year <= 9999
  }

  /** A string that is the key of some day with a four-digit year. */
  ghost predicate WellFormedKey(k: string) {
    exists d :: ValidDate(d) && FourDigitYear(d) && Format(d) == k
  }

  /** getTodayString: the same key as getDateString(0). */
  function TodayString(today: Date): (k: string)
    requires ValidDate(today)
    ensures k == DateString(today, 0)
  {
    Format(today)
  }

  /** getDateString: the key of the day `offset` days after today. */
  function DateString(today: Date, offset: int): (k: string)
    requires ValidDate(today)
    ensures FourDigitYear(AddDays(today, offset)) ==> |k| == 10
  {
    Format(AddDays(today, offset))
  }

  lemma {:induction false} PadInjective(a: nat, b: nat, w: nat)
    requires Pad(a, w) == Pad(b, w)
    ensures a == b
    decreases a + b + w
  {
    var w' := if w == 0 then 0 else w - 1;
    if a < 10 && w <= 1 && b < 10 {
      assert Pad(a, w)[0] == DigitChar(a) && Pad(b, w)[0] == DigitChar(b);
    } else if !(a < 10 && w <= 1) && !(b < 10 && w <= 1) {
      var pa, pb := Pad(a / 10, w'), Pad(b / 10, w');
      assert Pad(a, w) == pa + [DigitChar(a % 10)];
      assert Pad(b, w) == pb + [DigitChar(b % 10)];
      assert |pa| == |pb|;
      assert pa == Pad(a, w)[..|pa|] && pb == Pad(b, w)[..|pb|];
      assert Pad(a, w)[|pa|] == DigitChar(a % 10) && Pad(b, w)[|pb|] == DigitChar(b % 10);
      PadInjective(a / 10, b / 10, w');
    }
  }

  /** A numeral of width two or more is the numeral of the leading digits, then the last digit. */
  lemma PadLast(a: nat, w: nat)
    requires w >= 2 && a < Pow10(w)
    ensures a / 10 < Pow10(w - 1)
    ensures Pad(a, w) == Pad(a / 10, w - 1) + [DigitChar(a % 10)]
  {
  }

  lemma PadOneDigit(a: nat)
    requires a < Pow10(1)
    ensures Pad(a, 1) == [DigitChar(a)]
  {
  }

  lemma DigitOrder(x: int, y: int)
    requires 0 <= x < 10 && 0 <= y < 10
    ensures LexLess([DigitChar(x)], [DigitChar(y)]) <==> x < y
  {
    assert [DigitChar(x)][1..] == [] && [DigitChar(y)][1..] == [];
  }

  lemma DivModOrder(a: nat, b: nat)
    ensures a < b <==> a / 10 < b / 10 || (a / 10 == b / 10 && a % 10 < b % 10)
  {
  }

  /** Zero-padded numerals of the same width sort like the numbers. */
  lemma {:induction false} PadOrder(a: nat, b: nat, w: nat)
    requires w >= 1 && a < Pow10(w) && b < Pow10(w)
    ensures LexLess(Pad(a, w), Pad(b, w)) <==> a < b
  {
    if w == 1 {
      PadOneDigit(a);
      PadOneDigit(b);
      DigitOrder(a, b);
    } else {
      PadLast(a, w);
      PadLast(b, w);
      var pa, pb := Pad(a / 10, w - 1), Pad(b / 10, w - 1);
      LexConcat(pa, pb, [DigitChar(a % 10)], [DigitChar(b % 10)]);
      PadOrder(a / 10, b / 10, w - 1);
      if pa == pb {
        PadInjective(a / 10, b / 10, w - 1);
      }
      DigitOrder(a % 10, b % 10);
      DivModOrder(a, b);
    }
  }

  /** A six-digit year field with its sign, read back. */
  lemma SignedPad(sign: char, n: nat, m: nat)
    requires [sign] + Pad(n, 6) == [sign] + Pad(m, 6)
    ensures n == m
  {
    assert Pad(n, 6) == ([sign] + Pad(n, 6))[1..];
    assert Pad(m, 6) == ([sign] + Pad(m, 6))[1..];
    PadInjective(n, m, 6);
  }

  lemma YearTextInjective(y1: int, y2: int)
    requires YearText(y1) == YearText(y2)
    ensures y1 == y2
  {
    assert YearText(y1)[0] == YearText(y2)[0];
    if 0 <= y1 <= 9999 && 0 <= y2 <= 9999 {
      PadInjective(y1, y2, 4);
    } else if y1 > 9999 && y2 > 9999 {
      SignedPad('+', y1, y2);
    } else if y1 < 0 && y2 < 0 {
      SignedPad('-', -y1, -y2);
    }
  }

  /** Different days have different keys. */
  lemma FormatInjective(a: Date, b: Date)
    requires ValidDate(a) && ValidDate(b) && Format(a) == Format(b)
    ensures a == b
  {
    var ya, yb := YearText(a.year), YearText(b.year);
    var ra, rb := MonthDayText(a.month, a.day), MonthDayText(b.month, b.day);
    var k := Format(a);
    assert ya == k[..|k| - 6] && yb == k[..|k| - 6];
    assert ra == k[|k| - 6..] && rb == k[|k| - 6..];
    YearTextInjective(a.year, b.year);
    assert Pad(a.month, 2) == ra[1..3] && Pad(b.month, 2) == rb[1..3];
    assert Pad(a.day, 2) == ra[4..] && Pad(b.day, 2) == rb[4..];
    PadInjective(a.month, b.month, 2);
    PadInjective(a.day, b.day, 2);
  }

  /** `-MM-DD` texts sort by month, then day. */
  lemma MonthDayOrder(m1: nat, d1: nat, m2: nat, d2: nat)
    requires 1 <= m1 <= 12 && 1 <= d1 <= 31 && 1 <= m2 <= 12 && 1 <= d2 <= 31
    ensures LexLess(MonthDayText(m1, d1), MonthDayText(m2, d2)) <==> m1 < m2 || (m1 == m2 && d1 < d2)
  {
    assert Pow10(2) == 100;
    var ma, mb := Pad(m1, 2), Pad(m2, 2);
    var ta, tb := "-" + Pad(d1, 2), "-" + Pad(d2, 2);
    assert MonthDayText(m1, d1) == "-" + (ma + ta) && MonthDayText(m2, d2) == "-" + (mb + tb);
    LexConcat("-", "-", ma + ta, mb + tb);
    LexConcat(ma, mb, ta, tb);
    PadOrder(m1, m2, 2);
    if ma == mb {
      PadInjective(m1, m2, 2);
    }
    LexConcat("-", "-", Pad(d1, 2), Pad(d2, 2));
    PadOrder(d1, d2, 2);
  }

  /**
   * For four-digit years, the lexicographic order of keys is the
   * chronological order of days; `.sort()` on keys relies on this.
   */
  lemma FormatOrder(a: Date, b: Date)
    requires ValidDate(a) && ValidDate(b) && FourDigitYear(a) && FourDigitYear(b)
    ensures LexLess(Format(a), Format(b)) <==> Before(a, b)
  {
    assert Pow10(4) == 10000;
    var ya, yb := Pad(a.year, 4), Pad(b.year, 4);
    var ra, rb := MonthDayText(a.month, a.day), MonthDayText(b.month, b.day);
    LexConcat(ya, yb, ra, rb);
    PadOrder(a.year, b.year, 4);
    if ya == yb {
      PadInjective(a.year, b.year, 4);
    }
    MonthDayOrder(a.month, a.day, b.month, b.day);
  }

  /** Offsets compose: the key `k` days after the day `j` days after today. */
  lemma DateStringShift(today: Date, j: int, k: int)
    requires ValidDate(today)
    ensures DateString(AddDays(today, j), k) == DateString(today, j + k)
  {
    AddDaysAdditive(today, j, k);
  }

  /** Distinct offsets give distinct keys. */
  lemma DateStringInjective(today: Date, j: int, k: int)
    requires ValidDate(today) && DateString(today, j) == DateString(today, k)
    ensures j == k
  {
    FormatInjective(AddDays(today, j), AddDays(today, k));
    if j < k {
      AddDaysMonotone(today, j, k);
    } else if k < j {
      AddDaysMonotone(today, k, j);
    }
  }

  /** A day between two four-digit-year days has a four-digit year. */
  lemma BetweenFourDigit(lo: Date, d: Date, hi: Date)
    requires FourDigitYear(lo) && FourDigitYear(hi)
    requires lo == d || Before(lo, d)
    requires d == hi || Before(d, hi)
    ensures FourDigitYear(d)
  {
  }

  /** getDateString as a function of the offset, for the day `today`. */
  function KeysFrom(today: Date): int -> string
    requires ValidDate(today)
  {
    (offset: int) => DateString(today, offset)
  }

  /** The keys `key(from)`, ..., `key(from + count - 1)`, in that order. */
  function Window(key: int -> string, from: int, count: nat): (days: seq<string>)
    ensures |days| == count
  {
    if count == 0 then [] else Window(key, from, count - 1) + [key(from + count - 1)]
  }

  /** Element `i` of a window is the key of offset `from + i`. */
  lemma {:induction false} WindowAt(key: int -> string, from: int, count: nat, i: int)
    requires 0 <= i < count
    ensures Window(key, from, count)[i] == key(from + i)
  {
    if i < count - 1 {
      WindowAt(key, from, count - 1, i);
    }
  }

  /** A window one longer ends with the key of its last offset. */
  lemma WindowSnoc(key: int -> string, from: int, count: nat, last: int)
    requires last == from + count
    ensures Window(key, from, count + 1) == Window(key, from, count) + [key(last)]
  {
  }

  /** getLastNDays: the `n` keys ending today, oldest first. */
  function LastNDays(today: Date, n: int): (days: seq<string>)
    requires ValidDate(today)
    ensures |days| == if n > 0 then n else 0
  {
    if n <= 0 then [] else Window(KeysFrom(today), -(n - 1), n)
  }

  /** Element `i` of the window is the key `n - 1 - i` days before today. */
  lemma LastNDaysAt(today: Date, n: int, i: int)
    requires ValidDate(today) && 0 <= i < n
    ensures LastNDays(today, n)[i] == DateString(today, i - (n - 1))
  {
    WindowAt(KeysFrom(today), -(n - 1), n, i);
  }

  /** getLastNDays, pushing one key per loop iteration as the source does. */
  method GetLastNDays(today: Date, n: int) returns (days: seq<string>)
    requires ValidDate(today)
    ensures days == LastNDays(today, n)
  {
    var dateString := KeysFrom(today);
    days := [];
    var i := n - 1;
    while i >= 0
      invariant n <= 0 ==> days == []
      invariant n > 0 ==> -1 <= i < n && days == Window(dateString, -(n - 1), n - 1 - i)
    {
      WindowPush(dateString, n, i, days);
      days := days + [dateString(-i)];
      i := i - 1;
    }
  }

  /** One step of GetLastNDays: appending the key `i` days back extends the window by one. */
  lemma WindowPush(key: int -> string, n: int, i: int, days: seq<string>)
    requires 0 <= i < n && days == Window(key, -(n - 1), n - 1 - i)
    ensures days + [key(-i)] == Window(key, -(n - 1), n - 1 - (i - 1))
  {
    WindowSnoc(key, -(n - 1), n - 1 - i, -i);
    assert n - 1 - i + 1 == n - 1 - (i - 1);
  }

  /** The window ends with today's key. */
  lemma LastNDaysEndsToday(today: Date, n: int)
    requires ValidDate(today) && n >= 1
    ensures LastNDays(today, n)[n - 1] == TodayString(today)
  {
    LastNDaysAt(today, n, n - 1);
  }

  lemma DateStringDistinct(today: Date, j: int, k: int)
    requires ValidDate(today) && j != k
    ensures DateString(today, j) != DateString(today, k)
  {
    if DateString(today, j) == DateString(today, k) {
      DateStringInjective(today, j, k);
    }
  }

  /** Two different positions of the window hold different keys. */
  lemma LastNDaysPairDistinct(today: Date, n: int, i: int, j: int)
    requires ValidDate(today) && 0 <= i < j < n
    ensures LastNDays(today, n)[i] != LastNDays(today, n)[j]
  {
    LastNDaysAt(today, n, i);
    LastNDaysAt(today, n, j);
    DateStringDistinct(today, i - (n - 1), j - (n - 1));
  }

  /** The window never repeats a key. */
  lemma LastNDaysDistinct(today: Date, n: int)
    requires ValidDate(today)
    ensures forall i, j :: 0 <= i < j < |LastNDays(today, n)| ==>
              LastNDays(today, n)[i] != LastNDays(today, n)[j]
  {
    forall i, j | 0 <= i < j < |LastNDays(today, n)|
      ensures LastNDays(today, n)[i] != LastNDays(today, n)[j]
    {
      LastNDaysPairDistinct(today, n, i, j);
    }
  }

  /**
   * Within a range of four-digit-year days, a smaller offset gives a key
   * that sorts first.
   */
  lemma DateStringOrder(today: Date, lo: int, j: int, k: int, hi: int)
    requires ValidDate(today) && lo <= j < k <= hi
    requires FourDigitYear(AddDays(today, lo)) && FourDigitYear(AddDays(today, hi))
    ensures LexLess(DateString(today, j), DateString(today, k))
  {
    var dj, dk := AddDays(today, j), AddDays(today, k);
    AddDaysMonotone(today, j, k);
    if lo < j {
      AddDaysMonotone(today, lo, j);
    }
    if k < hi {
      AddDaysMonotone(today, k, hi);
    }
    AddDaysMonotone(today, lo, k);
    AddDaysMonotone(today, j, hi);
    BetweenFourDigit(AddDays(today, lo), dj, AddDays(today, hi));
    BetweenFourDigit(AddDays(today, lo), dk, AddDays(today, hi));
    FormatOrder(dj, dk);
  }

  /** When the window stays within four-digit years, its keys are sorted. */
  lemma LastNDaysIncreasing(today: Date, n: int)
    requires ValidDate(today) && n >= 1
    requires FourDigitYear(today) && FourDigitYear(AddDays(today, -(n - 1)))
    ensures StrictlyIncreasing(LastNDays(today, n))
  {
    var days := LastNDays(today, n);
    forall i, j | 0 <= i < j < |days|
      ensures LexLess(days[i], days[j])
    {
      LastNDaysAt(today, n, i);
      LastNDaysAt(today, n, j);
      DateStringOrder(today, -(n - 1), i - (n - 1), j - (n - 1), 0);
    }
  }
}
