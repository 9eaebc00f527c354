/** Time windows and the YYYYMMDDhhmm ids of segments. Instants are nanoseconds since the
    start of the year 1, UTC. */
module SegmentIds {
  import opened Text

  const MINUTE := 60_000_000_000
  const HOUR := 60 * MINUTE

  /** The widths the configuration accepts. */
  const VALID_WINDOWS: set<int> := {
    5 * MINUTE, 10 * MINUTE, 15 * MINUTE, 30 * MINUTE,
    HOUR, 2 * HOUR, 3 * HOUR, 4 * HOUR, 6 * HOUR, 8 * HOUR, 12 * HOUR, 24 * HOUR
  }

  function WindowStart(t: int, w: int): (start: int)
    requires w > 0
    ensures start <= t < start + w && start % w == 0
  {
    WholeWindows(t, w);
    t - t % w
  }

  lemma WholeWindows(t: int, w: int)
    requires w > 0
    ensures (t - t % w) % w == 0
  {
    var q := t / w;
    assert t - t % w == q * w;
    MultipleModulo(q, w);
  }

  lemma MultipleModulo(q: int, w: int)
    requires w > 0
    ensures (q * w) % w == 0
  {
    var r := (q * w) % w;
    var p := (q * w) / w;
    assert q * w == p * w + r;
    assert (q - p) * w == r;
    if q > p {
      AtLeastOnce(q - p, w);
    } else if q < p {
      AtLeastOnce(p - q, w);
    }
  }

  lemma AtLeastOnce(k: int, w: int)
    requires k >= 1 && w > 0
    ensures k * w >= w && (-k) * w <= -w
  {
    assert (k - 1) * w >= 0;
  }

  // -------------------------------------------------------------------- calendar

  predicate IsLeap(y: int) {
    y % 4 == 0 && (y % 100 != 0 || y % 400 == 0)
  }

  function DaysInYear(y: int): int {
    if IsLeap(y) then 366 else 365
  }

  /** Days from the start of the year 1 to the start of year y. */
  function DaysBefore(y: int): int {
    365 * (y - 1) + (y - 1) / 4 - (y - 1) / 100 + (y - 1) / 400
  }

  function DaysInMonth(m: int, leap: bool): int {
    if m == 2 then (if leap then 29 else 28) else if m in {4, 6, 9, 11} then 30 else 31
  }

  /** Days from the start of the year to the start of month m. */
  function DaysBeforeMonth(m: int, leap: bool): int
    requires 1 <= m <= 13
  {
    if m == 1 then 0 else DaysBeforeMonth(m - 1, leap) + DaysInMonth(m - 1, leap)
  }

  datatype Date = Date(year: int, month: int, day: int) {
    predicate Valid() {
      1 <= month <= 12 && 1 <= day <= DaysInMonth(month, IsLeap(year))
    }
  }

  function DaysOf(date: Date): int
    requires date.Valid()
  {
    DaysBefore(date.year) + DaysBeforeMonth(date.month, IsLeap(date.year)) + date.day - 1
  }

  /** The year and the day in it, by 400-, 100-, 4- and 1-year cycles. */
  function YearOf(days: int): (r: (int, int))
    ensures DaysBefore(r.0) + r.1 == days && 0 <= r.1 < DaysInYear(r.0)
  {
    var n400 := days / 146097;
    var d400 := days % 146097;
    var n100 := if d400 / 36524 == 4 then 3 else d400 / 36524;
    var d100 := d400 - 36524 * n100;
    var n4 := d100 / 1461;
    var d4 := d100 % 1461;
    var n1 := if d4 / 365 == 4 then 3 else d4 / 365;
    Cycles(n400, n100, n4, n1);
    (400 * n400 + 100 * n100 + 4 * n4 + n1 + 1, d4 - 365 * n1)
  }

  lemma Cycles(a: int, b: int, c: int, e: int)
    requires 0 <= b < 4 && 0 <= c < 25 && 0 <= e < 4
    ensures var y := 400 * a + 100 * b + 4 * c + e + 1;
            DaysBefore(y) == 146097 * a + 36524 * b + 1461 * c + 365 * e &&
            (IsLeap(y) <==> e == 3 && (c != 24 || b == 3))
  {
    var z := 400 * a + 100 * b + 4 * c + e;
    Four(z, 100 * a + 25 * b + c, e);
    Hundred(z, 4 * a + b, 4 * c + e);
    FourHundred(z, a, 100 * b + 4 * c + e);
    LeapCycle(z, 100 * a + 25 * b + c, 4 * a + b, a, b, c, e);
  }

  lemma Four(z: int, q: int, r: int)
    requires z == 4 * q + r && 0 <= r < 4
    ensures z / 4 == q && z % 4 == r
  {
  }

  lemma Hundred(z: int, q: int, r: int)
    requires z == 100 * q + r && 0 <= r < 100
    ensures z / 100 == q && z % 100 == r
  {
  }

  lemma FourHundred(z: int, q: int, r: int)
    requires z == 400 * q + r && 0 <= r < 400
    ensures z / 400 == q && z % 400 == r
  {
  }

  /** The year after z is a leap year when it ends a 4-year cycle, and ends a 100-year cycle only
      if it ends a 400-year cycle too. */
  lemma LeapCycle(z: int, q4: int, q100: int, q400: int, b: int, c: int, e: int)
    requires z == 4 * q4 + e && z == 100 * q100 + 4 * c + e && z == 400 * q400 + 100 * b + 4 * c + e
    requires 0 <= b < 4 && 0 <= c < 25 && 0 <= e < 4
    ensures IsLeap(z + 1) <==> e == 3 && (c != 24 || b == 3)
  {
    if e < 3 {
      Four(z + 1, q4, e + 1);
    } else {
      Four(z + 1, q4 + 1, 0);
      if c < 24 {
        Hundred(z + 1, q100, 4 * c + 4);
      } else {
        Hundred(z + 1, q100 + 1, 0);
        if b < 3 {
          FourHundred(z + 1, q400, 100 * b + 100);
        } else {
          FourHundred(z + 1, q400 + 1, 0);
        }
      }
    }
  }

  function MonthFrom(m: int, rest: int, leap: bool): (r: (int, int))
    requires 1 <= m <= 12 && 0 <= rest < DaysBeforeMonth(13, leap) - DaysBeforeMonth(m, leap)
    ensures m <= r.0 <= 12 && 1 <= r.1 <= DaysInMonth(r.0, leap)
    ensures DaysBeforeMonth(r.0, leap) + r.1 - 1 == DaysBeforeMonth(m, leap) + rest
    decreases 12 - m
  {
    if rest < DaysInMonth(m, leap) then (m, rest + 1)
    else
      assert DaysBeforeMonth(m + 1, leap) == DaysBeforeMonth(m, leap) + DaysInMonth(m, leap);
      MonthFrom(m + 1, rest - DaysInMonth(m, leap), leap)
  }

  lemma YearLength(leap: bool)
    ensures DaysBeforeMonth(13, leap) == if leap then 366 else 365
  {
    var f := if leap then 1 else 0;
    assert DaysBeforeMonth(2, leap) == 31;
    assert DaysBeforeMonth(3, leap) == 59 + f;
    assert DaysBeforeMonth(4, leap) == 90 + f;
    assert DaysBeforeMonth(5, leap) == 120 + f;
    assert DaysBeforeMonth(6, leap) == 151 + f;
    assert DaysBeforeMonth(7, leap) == 181 + f;
    assert DaysBeforeMonth(8, leap) == 212 + f;
    assert DaysBeforeMonth(9, leap) == 243 + f;
    assert DaysBeforeMonth(10, leap) == 273 + f;
    assert DaysBeforeMonth(11, leap) == 304 + f;
    assert DaysBeforeMonth(12, leap) == 334 + f;
  }

  /** Every day number is the number of exactly the date it is shown as. */
  function DateOf(days: int): (date: Date)
    ensures date.Valid() && DaysOf(date) == days
  {
    var (year, yday) := YearOf(days);
    YearLength(IsLeap(year));
    var (month, day) := MonthFrom(1, yday, IsLeap(year));
    Date(year, month, day)
  }

  predicate DateLess(a: Date, b: Date) {
    a.year < b.year || (a.year == b.year && (a.month < b.month || (a.month == b.month && a.day < b.day)))
  }

  lemma {:induction false} MonthsAscend(m: int, n: int, leap: bool)
    requires 1 <= m < n <= 13
    ensures DaysBeforeMonth(m, leap) + DaysInMonth(m, leap) <= DaysBeforeMonth(n, leap)
    decreases n
  {
    if m + 1 < n {
      MonthsAscend(m, n - 1, leap);
    }
  }

  lemma YearAdds(y: int)
    ensures DaysBefore(y + 1) == DaysBefore(y) + DaysInYear(y)
  {
    QuarterAdds(y);
    CenturyAdds(y);
    FourCenturiesAdd(y);
  }

  lemma QuarterAdds(y: int)
    ensures y / 4 == (y - 1) / 4 + (if y % 4 == 0 then 1 else 0)
  {
    var q, r := y / 4, y % 4;
    if r == 0 {
      Four(y - 1, q - 1, 3);
    } else {
      Four(y - 1, q, r - 1);
    }
  }

  lemma CenturyAdds(y: int)
    ensures y / 100 == (y - 1) / 100 + (if y % 100 == 0 then 1 else 0)
    ensures y % 100 == 0 ==> y % 4 == 0
  {
    var q, r := y / 100, y % 100;
    if r == 0 {
      Hundred(y - 1, q - 1, 99);
      Four(y, 25 * q, 0);
    } else {
      Hundred(y - 1, q, r - 1);
    }
  }

  lemma FourCenturiesAdd(y: int)
    ensures y / 400 == (y - 1) / 400 + (if y % 400 == 0 then 1 else 0)
    ensures y % 400 == 0 ==> y % 100 == 0
  {
    var q, r := y / 400, y % 400;
    if r == 0 {
      FourHundred(y - 1, q - 1, 399);
      Hundred(y, 4 * q, 0);
    } else {
      FourHundred(y - 1, q, r - 1);
    }
  }

  lemma {:induction false} YearsAscend(y: int, z: int)
    requires y < z
    ensures DaysBefore(y) + DaysInYear(y) <= DaysBefore(z)
    decreases z - y
  {
    YearAdds(y);
    if y + 1 < z {
      YearsAscend(y + 1, z);
    }
  }

  /** Dates and day numbers are ordered alike, so the two are in bijection. */
  lemma DateOrder(a: Date, b: Date)
    requires a.Valid() && b.Valid()
    ensures DateLess(a, b) <==> DaysOf(a) < DaysOf(b)
    ensures DaysOf(a) == DaysOf(b) ==> a == b
  {
    if DateLess(a, b) {
      DateAscends(a, b);
    } else if DateLess(b, a) {
      DateAscends(b, a);
    }
  }

  lemma DateAscends(a: Date, b: Date)
    requires a.Valid() && b.Valid() && DateLess(a, b)
    ensures DaysOf(a) < DaysOf(b)
  {
    hide DaysBefore, IsLeap;
    if a.year < b.year {
      YearsAscend(a.year, b.year);
      MonthsAscend(a.month, 13, IsLeap(a.year));
      YearLength(IsLeap(a.year));
      if b.month > 1 {
        MonthsAscend(1, b.month, IsLeap(b.year));
      }
    } else if a.month < b.month {
      MonthsAscend(a.month, b.month, IsLeap(a.year));
    }
  }

  /** The day after, by the Gregorian rules. */
  function NextDate(d: Date): Date {
    var leap := d.year % 400 == 0 || (d.year % 4 == 0 && d.year % 100 != 0);
    var last := match d.month
                case 2 => if leap then 29 else 28
                case 4 | 6 | 9 | 11 => 30
                case _ => 31;
    if d.day < last then Date(d.year, d.month, d.day + 1)
    else if d.month < 12 then Date(d.year, d.month + 1, 1)
    else Date(d.year + 1, 1, 1)
  }

  /** Day numbers follow the calendar from the first day of the year 1. */
  lemma DatesFollow(days: int)
    ensures DateOf(0) == Date(1, 1, 1) && DateOf(days + 1) == NextDate(DateOf(days))
  {
    hide DaysBefore;
    FirstDay();
    var d := DateOf(days);
    NextIsOneLater(d);
    DateOrder(NextDate(d), DateOf(days + 1));
  }

  lemma FirstDay()
    ensures DateOf(0) == Date(1, 1, 1)
  {
    assert DaysOf(Date(1, 1, 1)) == 0;
    DateOrder(Date(1, 1, 1), DateOf(0));
  }

  lemma LeapRule(y: int)
    ensures IsLeap(y) <==> y % 400 == 0 || (y % 4 == 0 && y % 100 != 0)
  {
    CenturyAdds(y);
    FourCenturiesAdd(y);
  }

  lemma NextIsOneLater(d: Date)
    requires d.Valid()
    ensures NextDate(d).Valid() && DaysOf(NextDate(d)) == DaysOf(d) + 1
  {
    hide DaysBefore, IsLeap;
    LeapRule(d.year);
    YearLength(IsLeap(d.year));
    YearAdds(d.year);
    if d.month < 12 {
      assert DaysBeforeMonth(d.month + 1, IsLeap(d.year)) ==
             DaysBeforeMonth(d.month, IsLeap(d.year)) + DaysInMonth(d.month, IsLeap(d.year));
    }
  }

  // ------------------------------------------------------------- fixed-width digits

  function Digit(n: int): char
    requires 0 <= n < 10
  {
    (n as char) + '0'
  }

  /** Zero-padded to width w; longer numbers keep all their digits. */
  function Padded(n: nat, w: nat): string {
    if w == 0 then (if n == 0 then "" else Digits(n)) else Padded(n / 10, w - 1) + [Digit(n % 10)]
  }

  function PaddedInt(n: int, w: nat): string {
    if n < 0 then "-" + Padded(-n, w) else Padded(n, w)
  }

  function Pow10(k: nat): nat {
    if k == 0 then 1 else 10 * Pow10(k - 1)
  }

  function Number(s: string): Option<nat> {
    if s == "" then Some(0)
    else
      var c := s[|s| - 1];
      match Number(s[..|s| - 1])
      case None => None
      case Some(n) => if '0' <= c <= '9' then Some(10 * n + (c as int - '0' as int)) else None
  }

  lemma {:induction false} PaddedReadsBack(n: nat, w: nat)
    requires n < Pow10(w)
    ensures |Padded(n, w)| == w && Number(Padded(n, w)) == Some(n)
  {
    if w > 0 {
      PaddedReadsBack(n / 10, w - 1);
      var s := Padded(n, w);
      assert s[..|s| - 1] == Padded(n / 10, w - 1);
    }
  }

  lemma {:induction false} LessOfParts(a: string, b: string, c: string, d: string)
    requires |a| == |b|
    ensures Less(a + c, b + d) <==> Less(a, b) || (a == b && Less(c, d))
  {
    if a == "" {
      assert a + c == c && b + d == d;
    } else {
      LessOfParts(a[1..], b[1..], c, d);
      assert (a + c)[1..] == a[1..] + c && (b + d)[1..] == b[1..] + d;
      if a[0] == b[0] && a[1..] == b[1..] {
        assert a == [a[0]] + a[1..] == b;
      }
    }
  }

  lemma LessOfDigits(m: int, n: int)
    requires 0 <= m < 10 && 0 <= n < 10
    ensures Less([Digit(m)], [Digit(n)]) <==> m < n
  {
  }

  /** Among numerals of one width, text order is numeric order. */
  lemma {:induction false} PaddedOrder(m: nat, n: nat, w: nat)
    requires m < Pow10(w) && n < Pow10(w)
    ensures Less(Padded(m, w), Padded(n, w)) <==> m < n
  {
    hide Number, Less, Digit, Digits;
    if w == 0 {
      PaddedReadsBack(m, w);
      LessTrichotomy(Padded(m, w), Padded(n, w));
    } else {
      PaddedOrder(m / 10, n / 10, w - 1);
      PaddedReadsBack(m / 10, w - 1);
      PaddedReadsBack(n / 10, w - 1);
      LessOfDigits(m % 10, n % 10);
      LessOfParts(Padded(m / 10, w - 1), Padded(n / 10, w - 1), [Digit(m % 10)], [Digit(n % 10)]);
      assert Padded(m / 10, w - 1) == Padded(n / 10, w - 1) ==> m / 10 == n / 10;
    }
  }

  // ------------------------------------------------------------------------- ids

  /** The printed form of an instant, to the minute. */
  function Format(t: int): string {
    var minutes := t / MINUTE;
    var date := DateOf(minutes / 1440);
    PaddedInt(date.year, 4) + Padded(date.month, 2) + Padded(date.day, 2)
      + Padded(minutes % 1440 / 60, 2) + Padded(minutes % 60, 2)
  }

  function SegmentID(t: int, w: int): string
    requires w > 0
  {
    Format(WindowStart(t, w))
  }

  function ParseSegmentID(id: string): Option<int> {
    if |id| != 12 then None
    else
      match (Number(id[..4]), Number(id[4..6]), Number(id[6..8]), Number(id[8..10]), Number(id[10..]))
      case (Some(year), Some(month), Some(day), Some(hour), Some(minute)) =>
        var date := Date(year, month, day);
        if date.Valid() && hour < 24 && minute < 60 then Some((DaysOf(date) * 1440 + hour * 60 + minute) * MINUTE)
        else None
      case _ => None
  }

  /** Instants of the years 1 to 9999, which print as four digits. */
  predicate InCalendar(t: int) {
    0 <= t < 3_652_059 * 24 * HOUR
  }

  lemma CalendarYears(t: int)
    requires InCalendar(t)
    ensures 1 <= DateOf(t / MINUTE / 1440).year <= 9999
  {
    hide DaysBefore, IsLeap, DaysOf, DaysInMonth;
    var days := t / MINUTE / 1440;
    DivideBelow(t, 3_652_059 * 1440, MINUTE);
    DivideBelow(t / MINUTE, 3_652_059, 1440);
    var date := DateOf(days);
    assert DaysBefore(1) == 0 && DaysBefore(10_000) == 3_652_059 by {
      YearStarts();
    }
    MonthsCover(date);
    if date.year < 1 {
      YearsAscend(date.year, 1);
    } else if date.year > 10_000 {
      YearsAscend(10_000, date.year);
    }
  }

  lemma DivideBelow(t: int, n: int, d: int)
    requires d > 0 && 0 <= t < n * d
    ensures 0 <= t / d < n
  {
    var q := t / d;
    assert q * d <= t < q * d + d;
    if q > n {
      AtLeastOnce(q - n, d);
    }
  }

  lemma YearStarts()
    ensures DaysBefore(1) == 0 && DaysBefore(10_000) == 3_652_059
  {
  }

  /** The day in the year is within the year. */
  lemma MonthsCover(date: Date)
    requires date.Valid()
    ensures DaysBefore(date.year) <= DaysOf(date) < DaysBefore(date.year) + DaysInYear(date.year)
  {
    hide DaysBefore, IsLeap;
    YearLength(IsLeap(date.year));
    MonthsAscend(date.month, 13, IsLeap(date.year));
    if date.month > 1 {
      MonthsAscend(1, date.month, IsLeap(date.year));
    }
  }

  lemma FieldsFit(t: int)
    requires InCalendar(t)
    ensures var minutes := t / MINUTE; var date := DateOf(minutes / 1440);
            0 <= date.year < Pow10(4) && date.month < Pow10(2) && date.day < Pow10(2) &&
            minutes % 1440 / 60 < Pow10(2) && minutes % 60 < Pow10(2)
  {
    CalendarYears(t);
    assert Pow10(2) == 100 && Pow10(4) == 100 * Pow10(2);
  }

  lemma FormatParts(t: int)
    requires InCalendar(t)
    ensures var minutes := t / MINUTE; var date := DateOf(minutes / 1440); var s := Format(t);
            |s| == 12 && s[..4] == Padded(date.year, 4) && s[4..6] == Padded(date.month, 2) &&
            s[6..8] == Padded(date.day, 2)
            && s[8..10] == Padded(minutes % 1440 / 60, 2) && s[10..] == Padded(minutes % 60, 2)
  {
    hide DateOf, Padded, Pow10;
    FieldsFit(t);
    var minutes := t / MINUTE;
    var date := DateOf(minutes / 1440);
    PaddedReadsBack(date.year, 4);
    PaddedReadsBack(date.month, 2);
    PaddedReadsBack(date.day, 2);
    PaddedReadsBack(minutes % 1440 / 60, 2);
    PaddedReadsBack(minutes % 60, 2);
  }

  lemma ParseFields(id: string, date: Date, hour: nat, minute: nat)
    requires |id| == 12 && date.year >= 0 && date.Valid() && hour < 24 && minute < 60
    requires Number(id[..4]) == Some(date.year) && Number(id[4..6]) == Some(date.month) &&
             Number(id[6..8]) == Some(date.day)
    requires Number(id[8..10]) == Some(hour) && Number(id[10..]) == Some(minute)
    ensures ParseSegmentID(id) == Some((DaysOf(date) * 1440 + hour * 60 + minute) * MINUTE)
  {
    hide Number, DaysOf;
    assert Date(date.year, date.month, date.day) == date;
  }

  /** Printing and reading back gives the instant rounded down to the minute. */
  lemma FormatReadsBack(t: int)
    requires InCalendar(t)
    ensures ParseSegmentID(Format(t)) == Some(t / MINUTE * MINUTE)
  {
    hide DateOf, Padded, Pow10, Number, DaysOf, ParseSegmentID, Format;
    FormatParts(t);
    FieldsFit(t);
    var minutes := t / MINUTE;
    var date := DateOf(minutes / 1440);
    PaddedReadsBack(date.year, 4);
    PaddedReadsBack(date.month, 2);
    PaddedReadsBack(date.day, 2);
    PaddedReadsBack(minutes % 1440 / 60, 2);
    PaddedReadsBack(minutes % 60, 2);
    ParseFields(Format(t), date, minutes % 1440 / 60, minutes % 60);
    ClockFields(minutes);
  }

  lemma {:induction false} NumberPrintsBack(s: string)
    requires Number(s).Some?
    ensures Padded(Number(s).value, |s|) == s
  {
    if s != "" {
      var k := |s| - 1;
      NumberPrintsBack(s[..k]);
      var n, d := Number(s[..k]).value, s[k] as int - '0' as int;
      Tenfold(n, d);
      assert s == s[..k] + [s[k]] && Digit(d) == s[k];
    }
  }

  lemma Tenfold(n: nat, d: int)
    requires 0 <= d < 10
    ensures (10 * n + d) / 10 == n && (10 * n + d) % 10 == d
  {
  }

  /** What parses as an id is the printed form of the instant it stands for: no other text does. */
  lemma ParsedIdPrintsBack(id: string)
    requires ParseSegmentID(id).Some?
    ensures Format(ParseSegmentID(id).value) == id
  {
    hide DateOf, Padded, DaysOf, Number;
    var t := ParseSegmentID(id).value;
    var date := Date(Number(id[..4]).value, Number(id[4..6]).value, Number(id[6..8]).value);
    var hour, minute := Number(id[8..10]).value, Number(id[10..]).value;
    NumberPrintsBack(id[..4]);
    NumberPrintsBack(id[4..6]);
    NumberPrintsBack(id[6..8]);
    NumberPrintsBack(id[8..10]);
    NumberPrintsBack(id[10..]);
    WholeMultiple(DaysOf(date) * 1440 + hour * 60 + minute, MINUTE);
    DayAndClock(DaysOf(date), hour, minute);
    DateOrder(DateOf(DaysOf(date)), date);
    assert id == id[..4] + id[4..6] + id[6..8] + id[8..10] + id[10..];
  }

  lemma WholeMultiple(n: int, d: int)
    requires d > 0
    ensures n * d / d == n
  {
    var q := n * d / d;
    assert q * d <= n * d < q * d + d;
    if q < n {
      AtLeastOnce(n - q, d);
    } else if q > n {
      AtLeastOnce(q - n, d);
    }
  }

  lemma DayAndClock(days: int, hour: nat, minute: nat)
    requires hour < 24 && minute < 60
    ensures var minutes := days * 1440 + hour * 60 + minute;
            minutes / 1440 == days && minutes % 1440 / 60 == hour && minutes % 60 == minute
  {
    Sixty(days * 1440 + hour * 60 + minute, 24 * days + hour, minute);
    Sixty(hour * 60 + minute, hour, minute);
  }

  lemma ClockFields(minutes: int)
    ensures minutes == minutes / 1440 * 1440 + minutes % 1440 / 60 * 60 + minutes % 60
  {
    var days, rest := minutes / 1440, minutes % 1440;
    var hours, left := rest / 60, rest % 60;
    Sixty(minutes, 24 * days + hours, left);
  }

  lemma Sixty(z: int, q: int, r: int)
    requires z == 60 * q + r && 0 <= r < 60
    ensures z / 60 == q && z % 60 == r
  {
  }

  lemma WholeMinutes(w: int, start: int)
    requires w > 0 && w % MINUTE == 0 && start % w == 0
    ensures start % MINUTE == 0
  {
    var k, q := start / w, w / MINUTE;
    assert start == k * w && w == q * MINUTE;
    assert start == (k * q) * MINUTE;
    MultipleModulo(k * q, MINUTE);
  }

  lemma ValidWindowsAreMinutes(w: int)
    requires w in VALID_WINDOWS
    ensures w > 0 && w % MINUTE == 0
  {
  }

  /** An id reads back as the start of its window, for every instant of the calendar, exactly when
      the window is a whole number of minutes, as every configurable one is. */
  lemma IdsReadBack(w: int)
    requires w > 0 && InCalendar(w)
    ensures (forall t | InCalendar(WindowStart(t, w)) :: ParseSegmentID(SegmentID(t, w)) == Some(WindowStart(t, w)))
       <==> w % MINUTE == 0
    ensures w in VALID_WINDOWS ==> w % MINUTE == 0
  {
    hide InCalendar, ParseSegmentID, Format;
    if w % MINUTE == 0 {
      forall t | InCalendar(WindowStart(t, w)) ensures ParseSegmentID(SegmentID(t, w)) == Some(WindowStart(t, w)) {
        IdReadsBack(t, w);
      }
    } else {
      assert WindowStart(w, w) == w;
      FormatReadsBack(w);
      assert ParseSegmentID(SegmentID(w, w)) != Some(WindowStart(w, w));
    }
  }

  lemma IdReadsBack(t: int, w: int)
    requires w > 0 && w % MINUTE == 0 && InCalendar(WindowStart(t, w))
    ensures ParseSegmentID(SegmentID(t, w)) == Some(WindowStart(t, w))
  {
    hide InCalendar, ParseSegmentID, Format;
    WholeMinutes(w, WindowStart(t, w));
    FormatReadsBack(WindowStart(t, w));
  }

  // ----------------------------------------------------------------------- order

  /** Printed instants sort as text in the order of their minutes. */
  lemma FormatOrder(s: int, t: int)
    requires InCalendar(s) && InCalendar(t)
    ensures Less(Format(s), Format(t)) <==> s / MINUTE < t / MINUTE
  {
    hide DateOf, Padded, Pow10, Less, DaysOf;
    FieldsFit(s);
    FieldsFit(t);
    var a, b := s / MINUTE, t / MINUTE;
    var p, q := DateOf(a / 1440), DateOf(b / 1440);
    FieldOrder(p.year, q.year, 4);
    FieldOrder(p.month, q.month, 2);
    FieldOrder(p.day, q.day, 2);
    FieldOrder(a % 1440 / 60, b % 1440 / 60, 2);
    FieldOrder(a % 60, b % 60, 2);
    var y, y' := Padded(p.year, 4), Padded(q.year, 4);
    var m, m' := Padded(p.month, 2), Padded(q.month, 2);
    var d, d' := Padded(p.day, 2), Padded(q.day, 2);
    var h, h' := Padded(a % 1440 / 60, 2), Padded(b % 1440 / 60, 2);
    LessOfParts(y + m + d + h, y' + m' + d' + h', Padded(a % 60, 2), Padded(b % 60, 2));
    LessOfParts(y + m + d, y' + m' + d', h, h');
    LessOfParts(y + m, y' + m', d, d');
    LessOfParts(y, y', m, m');
    SamePrefix(y, y', m, m');
    SamePrefix(y + m, y' + m', d, d');
    SamePrefix(y + m + d, y' + m' + d', h, h');
    DateOrder(p, q);
    ClockOrder(a, b);
  }

  lemma SamePrefix(a: string, b: string, c: string, d: string)
    requires |a| == |b|
    ensures a + c == b + d <==> a == b && c == d
  {
    if a + c == b + d {
      assert (a + c)[..|a|] == a && (b + d)[..|a|] == b;
      assert (a + c)[|a|..] == c && (b + d)[|a|..] == d;
    }
  }

  lemma FieldOrder(m: nat, n: nat, w: nat)
    requires m < Pow10(w) && n < Pow10(w)
    ensures |Padded(m, w)| == |Padded(n, w)| == w
    ensures Less(Padded(m, w), Padded(n, w)) <==> m < n
    ensures Padded(m, w) == Padded(n, w) <==> m == n
  {
    PaddedOrder(m, n, w);
    PaddedReadsBack(m, w);
    PaddedReadsBack(n, w);
  }

  lemma ClockOrder(a: int, b: int)
    ensures a < b <==>
            a / 1440 < b / 1440 ||
            (a / 1440 == b / 1440 &&
              (a % 1440 / 60 < b % 1440 / 60 || (a % 1440 / 60 == b % 1440 / 60 && a % 60 < b % 60)))
  {
    ClockFields(a);
    ClockFields(b);
  }

  /** Ids sort chronologically and tell windows apart. */
  lemma IdsSortChronologically(s: int, t: int, w: int)
    requires w > 0 && w % MINUTE == 0 && InCalendar(WindowStart(s, w)) && InCalendar(WindowStart(t, w))
    ensures Less(SegmentID(s, w), SegmentID(t, w)) <==> WindowStart(s, w) < WindowStart(t, w)
    ensures SegmentID(s, w) == SegmentID(t, w) <==> WindowStart(s, w) == WindowStart(t, w)
  {
    hide InCalendar, Format, Less;
    WholeMinutes(w, WindowStart(s, w));
    WholeMinutes(w, WindowStart(t, w));
    FormatOrder(WindowStart(s, w), WindowStart(t, w));
    IdReadsBack(s, w);
    IdReadsBack(t, w);
  }
}
