/** Calendar dates as Python's `datetime.date` has them: the proleptic Gregorian
    calendar for years 1..9999, the ordinal day number (`toordinal`), the weekday
    with Monday = 0, the ISO `YYYY-MM-DD` rendering (`isoformat`) and its strict
    parser (`fromisoformat`). Date order is the order of (year, month, day). */
module Dates {
  import opened Common
  import opened Text

  datatype Date = Date(year: int, month: int, day: int)

  predicate IsLeap(y: int) {
    y % 4 == 0 && (y % 100 != 0 || y % 400 == 0)
  }

  function DaysInMonth(y: int, m: int): (n: int)
    requires 1 <= m <= 12
    ensures 28 <= n <= 31
  {
    [31, 28, 31, 30, 31, 30, 31, 31, 30, 31, 30, 31][m - 1] + (if m == 2 && IsLeap(y) then 1 else 0)
  }

  function DaysInYear(y: int): int {
    if IsLeap(y) then 366 else 365
  }

  /** The arguments `date(year, month, day)` accepts; any other raises ValueError. */
  predicate Valid(d: Date) {
    1 <= d.year <= 9999 && 1 <= d.month <= 12 && 1 <= d.day <= DaysInMonth(d.year, d.month)
  }

  /** `a < b` on dates. */
  predicate Before(a: Date, b: Date) {
    a.year < b.year
    || (a.year == b.year && (a.month < b.month || (a.month == b.month && a.day < b.day)))
  }

  function DaysBeforeYear(y: int): int
    requires y >= 1
  {
    365 * (y - 1) + (y - 1) / 4 - (y - 1) / 100 + (y - 1) / 400
  }

  function DaysBeforeMonth(y: int, m: int): int
    requires 1 <= m <= 12
  {
    [0, 31, 59, 90, 120, 151, 181, 212, 243, 273, 304, 334][m - 1] + (if m > 2 && IsLeap(y) then 1 else 0)
  }

  /** `d.toordinal()`: 0001-01-01 is day 1. */
  function Ordinal(d: Date): int
    requires Valid(d)
  {
    DaysBeforeYear(d.year) + DaysBeforeMonth(d.year, d.month) + d.day
  }

  /** `d.weekday()`: Monday is 0 and Sunday is 6. */
  function Weekday(d: Date): (w: int)
    requires Valid(d)
    ensures 0 <= w < 7
  {
    (Ordinal(d) + 6) % 7
  }

  /** The ordinal of the Monday that starts the week of `d`
      (`d - timedelta(days=d.weekday())`); it is never before 0001-01-01. */
  function WeekStartOrdinal(d: Date): (n: int)
    requires Valid(d)
    ensures 1 <= n <= Ordinal(d)
    ensures (n + 6) % 7 == 0
  {
    OrdinalPositive(d);
    MondayBefore(Ordinal(d));
    Ordinal(d) - Weekday(d)
  }

  /** Stepping back from day `o` by its weekday lands on a Monday no earlier than day 1. */
  lemma MondayBefore(o: int)
    requires o >= 1
    ensures 1 <= o - (o + 6) % 7 <= o
    ensures (o - (o + 6) % 7 + 6) % 7 == 0
  {
  }

  lemma OrdinalPositive(d: Date)
    requires Valid(d)
    ensures Ordinal(d) >= 1
  {
  }

  lemma DivStep4(y: int)
    requires y >= 1
    ensures y / 4 - (y - 1) / 4 == if y % 4 == 0 then 1 else 0
  {
  }

  lemma DivStep100(y: int)
    requires y >= 1
    ensures y / 100 - (y - 1) / 100 == if y % 100 == 0 then 1 else 0
  {
  }

  lemma DivStep400(y: int)
    requires y >= 1
    ensures y / 400 - (y - 1) / 400 == if y % 400 == 0 then 1 else 0
  {
  }

  /** Consecutive years are `DaysInYear` apart. */
  lemma YearStep(y: int)
    requires y >= 1
    ensures DaysBeforeYear(y + 1) == DaysBeforeYear(y) + DaysInYear(y)
  {
    DivStep4(y);
    DivStep100(y);
    DivStep400(y);
  }

  lemma {:induction false} YearMonotone(y1: int, y2: int)
    requires 1 <= y1 < y2
    ensures DaysBeforeYear(y2) >= DaysBeforeYear(y1) + DaysInYear(y1)
    decreases y2 - y1
  {
    YearStep(y1);
    if y1 + 1 < y2 {
      YearMonotone(y1 + 1, y2);
    }
  }

  /** Within a year, the day of the year of a valid date lies in 1..DaysInYear. */
  lemma DayOfYearBounds(d: Date)
    requires Valid(d)
    ensures 1 <= DaysBeforeMonth(d.year, d.month) + d.day <= DaysInYear(d.year)
  {
  }

  /** Within a year, later months start after earlier months end. */
  lemma MonthStep(y: int, m1: int, m2: int)
    requires 1 <= m1 < m2 <= 12
    ensures DaysBeforeMonth(y, m2) >= DaysBeforeMonth(y, m1) + DaysInMonth(y, m1)
  {
  }

  /** Date order is ordinal order. */
  lemma OrdinalOrder(a: Date, b: Date)
    requires Valid(a) && Valid(b)
    ensures Before(a, b) <==> Ordinal(a) < Ordinal(b)
    ensures a == b <==> Ordinal(a) == Ordinal(b)
  {
    DayOfYearBounds(a);
    DayOfYearBounds(b);
    if a.year < b.year {
      YearMonotone(a.year, b.year);
    } else if b.year < a.year {
      YearMonotone(b.year, a.year);
    } else if a.month < b.month {
      MonthStep(a.year, a.month, b.month);
    } else if b.month < a.month {
      MonthStep(a.year, b.month, a.month);
    }
  }

  /** Two decimal digits, zero-padded (`%02d`). */
  function Digits2(n: int): (s: string)
    requires 0 <= n < 100
    ensures |s| == 2 && IsDigit(s[0]) && IsDigit(s[1])
  {
    [DigitChar(n / 10), DigitChar(n % 10)]
  }

  /** Four decimal digits, zero-padded (`%04d`). */
  function Digits4(n: int): (s: string)
    requires 0 <= n < 10000
    ensures |s| == 4 && forall i :: 0 <= i < 4 ==> IsDigit(s[i])
  {
    Digits2(n / 100) + Digits2(n % 100)
  }

  /** `d.isoformat()`. */
  function Iso(d: Date): (s: string)
    requires Valid(d)
    ensures |s| == 10 && IsoShaped(s)
  {
    Digits4(d.year) + "-" + Digits2(d.month) + "-" + Digits2(d.day)
  }

  /** The regular expression `\d{4}-\d{2}-\d{2}` matches at the start of `s` (`re.match`). */
  predicate IsoShaped(s: string) {
    |s| >= 10
    && IsDigit(s[0]) && IsDigit(s[1]) && IsDigit(s[2]) && IsDigit(s[3]) && s[4] == '-'
    && IsDigit(s[5]) && IsDigit(s[6]) && s[7] == '-' && IsDigit(s[8]) && IsDigit(s[9])
  }

  function Value2(a: char, b: char): int {
    10 * DigitValue(a) + DigitValue(b)
  }

  /** `date.fromisoformat(s)` in its strict `YYYY-MM-DD` form; None where it raises ValueError. */
  function ParseIso(s: string): (r: Option<Date>)
    ensures r.Some? ==> Valid(r.value)
  {
    if |s| == 10 && IsoShaped(s) then
      var d := Date(100 * Value2(s[0], s[1]) + Value2(s[2], s[3]), Value2(s[5], s[6]), Value2(s[8], s[9]));
      if Valid(d) then Some(d) else None
    else None
  }

  lemma DigitValueOf(d: nat)
    requires d < 10
    ensures DigitValue(DigitChar(d)) == d
  {
  }

  /** Reading back two rendered digits gives the number. */
  lemma Value2Digits2(n: int)
    requires 0 <= n < 100
    ensures Value2(Digits2(n)[0], Digits2(n)[1]) == n
  {
    DigitValueOf(n / 10);
    DigitValueOf(n % 10);
  }

  /** Parsing the ISO rendering of a date gives the date back. */
  lemma ParseIsoRoundTrip(d: Date)
    requires Valid(d)
    ensures ParseIso(Iso(d)) == Some(d)
  {
    var s := Iso(d);
    var y1, y2, m, dd := Digits2(d.year / 100), Digits2(d.year % 100), Digits2(d.month), Digits2(d.day);
    assert s == y1 + y2 + "-" + m + "-" + dd;
    assert s[0] == y1[0] && s[1] == y1[1] && s[2] == y2[0] && s[3] == y2[1];
    assert s[5] == m[0] && s[6] == m[1] && s[8] == dd[0] && s[9] == dd[1];
    Value2Digits2(d.year / 100);
    Value2Digits2(d.year % 100);
    Value2Digits2(d.month);
    Value2Digits2(d.day);
    assert 100 * Value2(s[0], s[1]) + Value2(s[2], s[3]) == d.year;
    var e := Date(100 * Value2(s[0], s[1]) + Value2(s[2], s[3]), Value2(s[5], s[6]), Value2(s[8], s[9]));
    assert e == d;
  }

  /** The ISO rendering determines the date. */
  lemma IsoInjective(a: Date, b: Date)
    requires Valid(a) && Valid(b) && Iso(a) == Iso(b)
    ensures a == b
  {
    ParseIsoRoundTrip(a);
    ParseIsoRoundTrip(b);
  }

  /** Comparing strings of equal-length heads: the heads decide unless they are equal. */
  lemma {:induction false} LexLessConcat(x: string, y: string, u: string, v: string)
    requires |x| == |y|
    ensures LexLess(x + u, y + v) <==> LexLess(x, y) || (x == y && LexLess(u, v))
    decreases |x|
  {
    if x != [] {
      assert (x + u)[1..] == x[1..] + u;
      assert (y + v)[1..] == y[1..] + v;
      LexLessConcat(x[1..], y[1..], u, v);
      if x[0] == y[0] && x[1..] == y[1..] {
        assert x == [x[0]] + x[1..] && y == [y[0]] + y[1..];
      }
    } else {
      assert x + u == u && y + v == v;
    }
  }

  lemma LexDigits2(a: int, b: int)
    requires 0 <= a < 100 && 0 <= b < 100
    ensures LexLess(Digits2(a), Digits2(b)) <==> a < b
    ensures Digits2(a) == Digits2(b) <==> a == b
  {
    var s, t := Digits2(a), Digits2(b);
    LexLessPair(s, t);
    assert s[0] as int - t[0] as int == a / 10 - b / 10;
    assert s[1] as int - t[1] as int == a % 10 - b % 10;
    if s == t {
      assert s[0] == t[0] && s[1] == t[1];
    }
  }

  /** Order of two-character strings: by the first character, then the second. */
  lemma LexLessPair(s: string, t: string)
    requires |s| == 2 && |t| == 2
    ensures LexLess(s, t) <==> s[0] < t[0] || (s[0] == t[0] && s[1] < t[1])
  {
    var s1, t1 := s[1..], t[1..];
    assert s1[0] == s[1] && t1[0] == t[1];
    assert s1[1..] == [] && t1[1..] == [];
    assert !LexLess(s1[1..], t1[1..]);
    assert LexLess(s1, t1) <==> s[1] < t[1];
  }

  lemma LexDigits4(a: int, b: int)
    requires 0 <= a < 10000 && 0 <= b < 10000
    ensures LexLess(Digits4(a), Digits4(b)) <==> a < b
    ensures Digits4(a) == Digits4(b) <==> a == b
  {
    LexLessConcat(Digits2(a / 100), Digits2(b / 100), Digits2(a % 100), Digits2(b % 100));
    LexDigits2(a / 100, b / 100);
    LexDigits2(a % 100, b % 100);
    if Digits4(a) == Digits4(b) {
      assert Digits4(a)[..2] == Digits2(a / 100) && Digits4(b)[..2] == Digits2(b / 100);
      assert Digits4(a)[2..] == Digits2(a % 100) && Digits4(b)[2..] == Digits2(b % 100);
    }
  }

  /** Comparing ISO renderings as strings is the same as comparing the dates:
      the string comparison of date fields is sound for well-formed dates. */
  lemma IsoOrder(a: Date, b: Date)
    requires Valid(a) && Valid(b)
    ensures LexLess(Iso(a), Iso(b)) <==> Before(a, b)
  {
    var ya, yb := Digits4(a.year), Digits4(b.year);
    var ma, mb := Digits2(a.month), Digits2(b.month);
    var da, db := Digits2(a.day), Digits2(b.day);
    assert Iso(a) == ya + ("-" + ma + "-" + da);
    assert Iso(b) == yb + ("-" + mb + "-" + db);
    LexDigits4(a.year, b.year);
    LexDigits2(a.month, b.month);
    LexDigits2(a.day, b.day);
    LexLessConcat(ya, yb, "-" + ma + "-" + da, "-" + mb + "-" + db);
    assert "-" + ma + "-" + da == "-" + (ma + ("-" + da));
    assert "-" + mb + "-" + db == "-" + (mb + ("-" + db));
    LexLessConcat("-", "-", ma + ("-" + da), mb + ("-" + db));
    LexLessIrreflexive("-");
    LexLessConcat(ma, mb, "-" + da, "-" + db);
    LexLessConcat("-", "-", da, db);
    assert ("-" + da)[1..] == da && ("-" + db)[1..] == db;
  }
}
