/** Civil date and time in India Standard Time (UTC+05:30, the offset the IANA zone
    Asia/Kolkata has kept since 1945-10-15) for an instant given in milliseconds since the
    Unix epoch, and the en-US rendering of that date and time: "<Month> <Day>, <Year>"
    (long month name, unpadded day) and a 24-hour "HH:MM:SS".

    The calendar is the proleptic Gregorian calendar. Days are numbered from
    1970-01-01 (day 0), seconds from 1970-01-01T00:00:00 of the zone's wall clock. */
module IstClock {

  import opened Wrappers
  import Strings

  /** India Standard Time is 5 hours 30 minutes ahead of UTC, with no daylight saving.
      The model adds this offset to every instant; the zone's earlier offsets are not modelled. */
  const IstOffsetSeconds := 5 * 3600 + 30 * 60

  // ---------------------------------------------------------------------------
  // The calendar

  predicate IsLeapYear(y: int) {
    y % 4 == 0 && (y % 100 != 0 || y % 400 == 0)
  }

  function DaysInYear(y: int): int {
    if IsLeapYear(y) then 366 else 365
  }

  function DaysInMonth(y: int, m: int): int
    requires 1 <= m <= 12
  {
    if m == 2 then (if IsLeapYear(y) then 29 else 28)
    else if m == 4 || m == 6 || m == 9 || m == 11 then 30
    else 31
  }

  /** Days of year y that lie before the first day of month m. */
  function DaysBeforeMonth(y: int, m: int): int
    requires 1 <= m <= 12
  {
    var common := match m
      case 1 => 0    case 2 => 31   case 3 => 59   case 4 => 90
      case 5 => 120  case 6 => 151  case 7 => 181  case 8 => 212
      case 9 => 243  case 10 => 273 case 11 => 304 case _ => 334;
    if m > 2 && IsLeapYear(y) then common + 1 else common
  }

  datatype Date = Date(year: int, month: int, day: int)

  predicate ValidDate(d: Date) {
    1 <= d.month <= 12 && 1 <= d.day <= DaysInMonth(d.year, d.month)
  }

  /** The number of leap years among the years 1..n (for n >= 0). For every n,
      LeapYearsThrough(n) - LeapYearsThrough(n - 1) is 1 if n is a leap year and 0 if not. */
  function LeapYearsThrough(n: int): int {
    n / 4 - n / 100 + n / 400
  }

  /** The day number of January 1 of year y. */
  function DaysBeforeYear(y: int): int {
    365 * (y - 1970) + LeapYearsThrough(y - 1) - LeapYearsThrough(1969)
  }

  /** The day number of a calendar date: the reference the conversion below is proved against. */
  function DaysFromCivil(d: Date): int
    requires ValidDate(d)
  {
    DaysBeforeYear(d.year) + DaysBeforeMonth(d.year, d.month) + d.day - 1
  }

  /** Whole multiples of k up to y, minus those up to y - 1: one exactly when k divides y. */
  lemma FloorSteps(y: int)
    ensures y / 4 - (y - 1) / 4 == if y % 4 == 0 then 1 else 0
    ensures y / 100 - (y - 1) / 100 == if y % 100 == 0 then 1 else 0
    ensures y / 400 - (y - 1) / 400 == if y % 400 == 0 then 1 else 0
  {
  }

  /** DaysBeforeYear counts days year by year, from 1970-01-01 as day 0. */
  lemma DaysBeforeYearStep(y: int)
    ensures DaysBeforeYear(1970) == 0
    ensures DaysBeforeYear(y + 1) == DaysBeforeYear(y) + DaysInYear(y)
  {
    FloorSteps(y);
    assert LeapYearsThrough(y) - LeapYearsThrough(y - 1) == if IsLeapYear(y) then 1 else 0;
  }

  lemma {:induction false} DaysBeforeYearMonotone(a: int, b: int)
    requires a < b
    ensures DaysBeforeYear(a) + DaysInYear(a) <= DaysBeforeYear(b)
    decreases b - a
  {
    DaysBeforeYearStep(a);
    if a + 1 < b {
      DaysBeforeYearMonotone(a + 1, b);
    }
  }

  lemma DaysBeforeMonthStep(y: int, m: int)
    requires 1 <= m < 12
    ensures DaysBeforeMonth(y, m + 1) == DaysBeforeMonth(y, m) + DaysInMonth(y, m)
  {
  }

  // ---------------------------------------------------------------------------
  // From a day number to a calendar date

  /** A year and a 0-based day within it. */
  datatype YearDay = YearDay(year: int, dayOfYear: int)

  /** Splits a day number into a year and a day of that year, counting whole
      400-year cycles (146097 days), then centuries (36524 days, the fourth one
      a day longer), then four-year groups (1461 days), then years (365 days),
      from 0001-01-01, which is day -719162. */
  function YearOfDay(z: int): YearDay {
    var n := z + 719162;
    var era := n / 146097;
    var doe := n % 146097;
    var c := if doe / 36524 < 3 then doe / 36524 else 3;
    var r1 := doe - 36524 * c;
    var q := r1 / 1461;
    var r2 := r1 - 1461 * q;
    var yq := if r2 / 365 < 3 then r2 / 365 else 3;
    YearDay(400 * era + 100 * c + 4 * q + yq + 1, r2 - 365 * yq)
  }

  /** Leap years before the start of year 400 * era + 100 * c + 4 * q + yq + 1. */
  lemma LeapYearsInCycle(era: int, c: int, q: int, yq: int)
    requires 0 <= c <= 3 && 0 <= q <= 24 && 0 <= yq <= 3
    ensures LeapYearsThrough(400 * era + 100 * c + 4 * q + yq) == 97 * era + 24 * c + q
  {
    var y := 400 * era + 100 * c + 4 * q + yq;
    assert y / 4 == 100 * era + 25 * c + q;
    assert y / 100 == 4 * era + c;
    assert y / 400 == era;
  }

  /** The last year of a four-year group is a leap year, unless it ends one of the
      first three centuries of a 400-year cycle. */
  lemma GroupEndsInLeapYear(era: int, c: int, q: int)
    requires 0 <= c <= 3 && 0 <= q <= 24 && (c < 3 ==> q < 24)
    ensures IsLeapYear(400 * era + 100 * c + 4 * q + 4)
  {
    var y := 400 * era + 100 * c + 4 * q + 4;
    assert y == 4 * (100 * era + 25 * c + q + 1);
    MultipleOf4(100 * era + 25 * c + q + 1);
    if q < 24 {
      assert y == 100 * (4 * era + c) + (4 * q + 4);
      RemainderOf100(4 * era + c, 4 * q + 4);
    } else {
      assert y == 400 * (era + 1);
      MultipleOf400(era + 1);
    }
  }

  lemma MultipleOf4(m: int)
    ensures (4 * m) % 4 == 0
  {
  }

  lemma MultipleOf400(m: int)
    ensures (400 * m) % 400 == 0
  {
  }

  lemma RemainderOf100(m: int, r: int)
    requires 0 <= r < 100
    ensures (100 * m + r) % 100 == r
  {
  }

  lemma CenturySplit(doe: int, c: int, r1: int)
    requires 0 <= doe < 146097
    requires c == (if doe / 36524 < 3 then doe / 36524 else 3) && r1 == doe - 36524 * c
    ensures 0 <= c <= 3 && 0 <= r1 <= 36524 && (c < 3 ==> r1 < 36524)
  {
  }

  lemma GroupSplit(r1: int, q: int, r2: int)
    requires 0 <= r1 <= 36524 && q == r1 / 1461 && r2 == r1 - 1461 * q
    ensures 0 <= q <= 24 && 0 <= r2 < 1461
  {
  }

  lemma YearSplit(r2: int, yq: int, doy: int)
    requires 0 <= r2 < 1461
    requires yq == (if r2 / 365 < 3 then r2 / 365 else 3) && doy == r2 - 365 * yq
    ensures 0 <= yq <= 3 && 0 <= doy <= 365 && (yq < 3 ==> doy < 365)
    ensures doy == 365 ==> r2 == 1460 && yq == 3
  {
  }

  lemma YearOfDayCorrect(z: int)
    ensures var r := YearOfDay(z);
      0 <= r.dayOfYear < DaysInYear(r.year) && DaysBeforeYear(r.year) + r.dayOfYear == z
  {
    var n := z + 719162;
    var era := n / 146097;
    var doe := n % 146097;
    var c := if doe / 36524 < 3 then doe / 36524 else 3;
    var r1 := doe - 36524 * c;
    var q := r1 / 1461;
    var r2 := r1 - 1461 * q;
    var yq := if r2 / 365 < 3 then r2 / 365 else 3;
    var doy := r2 - 365 * yq;
    assert n == 146097 * era + doe && 0 <= doe < 146097;
    CenturySplit(doe, c, r1);
    GroupSplit(r1, q, r2);
    YearSplit(r2, yq, doy);
    var y := 400 * era + 100 * c + 4 * q + yq;
    assert YearOfDay(z) == YearDay(y + 1, doy);
    LeapYearsInCycle(era, c, q, yq);
    assert LeapYearsThrough(1969) == 477;
    assert DaysBeforeYear(y + 1) == 365 * (y - 1969) + LeapYearsThrough(y) - 477;
    assert DaysBeforeYear(y + 1) + doy == z;
    if doy == 365 {
      // only the last year of a full four-year group has a 366th day
      assert c < 3 ==> q < 24;
      GroupEndsInLeapYear(era, c, q);
    }
  }

  /** The month (m or later) whose days contain day doy of year y. */
  function MonthContaining(y: int, doy: int, m: int): (r: int)
    requires 1 <= m <= 12
    ensures m <= r <= 12
    ensures DaysBeforeMonth(y, m) <= doy ==> DaysBeforeMonth(y, r) <= doy
    ensures r < 12 ==> doy < DaysBeforeMonth(y, r + 1)
    decreases 12 - m
  {
    if m == 12 || doy < DaysBeforeMonth(y, m + 1) then m else MonthContaining(y, doy, m + 1)
  }

  /** Any month whose days contain doy is the one MonthContaining finds. */
  lemma {:induction false} MonthContainingUnique(y: int, doy: int, m: int, k: int)
    requires 1 <= m <= k <= 12
    requires DaysBeforeMonth(y, k) <= doy < DaysBeforeMonth(y, k) + DaysInMonth(y, k)
    ensures MonthContaining(y, doy, m) == k
    decreases 12 - m
  {
    if m < k {
      DaysBeforeMonthStep(y, m);
      assert DaysBeforeMonth(y, m + 1) <= DaysBeforeMonth(y, k) by {
        MonthsAscend(y, m + 1, k);
      }
      MonthContainingUnique(y, doy, m + 1, k);
    } else if m < 12 {
      DaysBeforeMonthStep(y, m);
    }
  }

  lemma {:induction false} MonthsAscend(y: int, a: int, b: int)
    requires 1 <= a <= b <= 12
    ensures DaysBeforeMonth(y, a) <= DaysBeforeMonth(y, b)
    decreases b - a
  {
    if a < b {
      DaysBeforeMonthStep(y, a);
      MonthsAscend(y, a + 1, b);
    }
  }

  /** The calendar date of day number z. */
  function CivilFromDays(z: int): (d: Date)
    ensures ValidDate(d)
  {
    var yd := YearOfDay(z);
    YearOfDayCorrect(z);
    var m := MonthContaining(yd.year, yd.dayOfYear, 1);
    assert m < 12 ==> DaysBeforeMonth(yd.year, m) + DaysInMonth(yd.year, m) > yd.dayOfYear by {
      if m < 12 { DaysBeforeMonthStep(yd.year, m); }
    }
    Date(yd.year, m, yd.dayOfYear - DaysBeforeMonth(yd.year, m) + 1)
  }

  /** CivilFromDays undoes DaysFromCivil ... */
  lemma CivilFromDaysCorrect(z: int)
    ensures DaysFromCivil(CivilFromDays(z)) == z
  {
    YearOfDayCorrect(z);
  }

  /** ... and DaysFromCivil undoes CivilFromDays: every valid date is found again from its day number. */
  lemma CivilFromDaysInverse(d: Date)
    requires ValidDate(d)
    ensures CivilFromDays(DaysFromCivil(d)) == d
  {
    var z := DaysFromCivil(d);
    var yd := YearOfDay(z);
    YearOfDayCorrect(z);
    DaysBeforeMonthStep(d.year, 1);
    MonthsAscend(d.year, 1, d.month);
    if d.month < 12 {
      DaysBeforeMonthStep(d.year, d.month);
      MonthsAscend(d.year, d.month + 1, 12);
    }
    assert DaysBeforeMonth(d.year, 12) + 31 == DaysInYear(d.year);
    // z lies in year d.year, and in no other year
    if yd.year < d.year {
      DaysBeforeYearMonotone(yd.year, d.year);
    } else if d.year < yd.year {
      DaysBeforeYearMonotone(d.year, yd.year);
    }
    assert yd.year == d.year;
    MonthContainingUnique(d.year, yd.dayOfYear, 1, d.month);
  }

  // ---------------------------------------------------------------------------
  // Date and time of day in the Asia/Kolkata zone

  datatype DateTime = DateTime(date: Date, hour: int, minute: int, second: int)

  predicate ValidDateTime(t: DateTime) {
    ValidDate(t.date) && 0 <= t.hour < 24 && 0 <= t.minute < 60 && 0 <= t.second < 60
  }

  /** Seconds from 1970-01-01T00:00:00 to a wall-clock date and time. */
  function SecondsFromCivil(t: DateTime): int
    requires ValidDate(t.date)
  {
    DaysFromCivil(t.date) * 86400 + t.hour * 3600 + t.minute * 60 + t.second
  }

  /** The whole second an instant falls in: fractions of a second are dropped, rounding
      towards the past (Dafny's division by a positive divisor is floor division). */
  function EpochSecond(ms: int): int {
    ms / 1000
  }

  /** The Asia/Kolkata wall-clock date and time (hours 0..23) of an instant. */
  function IstDateTime(ms: int): (t: DateTime)
    ensures ValidDateTime(t)
  {
    var s := EpochSecond(ms) + IstOffsetSeconds;
    var sod := s % 86400;
    DateTime(CivilFromDays(s / 86400), sod / 3600, sod % 3600 / 60, sod % 60)
  }

  /** Hour, minute and second of a second of the day add back up to it. */
  lemma TimeOfDayParts(sod: int)
    requires 0 <= sod < 86400
    ensures 0 <= sod / 3600 < 24 && 0 <= sod % 3600 / 60 < 60 && 0 <= sod % 60 < 60
    ensures sod / 3600 * 3600 + sod % 3600 / 60 * 60 + sod % 60 == sod
  {
    var h, rest := sod / 3600, sod % 3600;
    assert sod == 3600 * h + rest && 0 <= rest < 3600;
    assert rest == 60 * (rest / 60) + rest % 60;
    assert rest % 60 == sod % 60;
  }

  /** The wall clock shows the instant shifted by +05:30 ... */
  lemma IstDateTimeCorrect(ms: int)
    ensures SecondsFromCivil(IstDateTime(ms)) == EpochSecond(ms) + IstOffsetSeconds
  {
    var s := EpochSecond(ms) + IstOffsetSeconds;
    var days, sod := s / 86400, s % 86400;
    var t := IstDateTime(ms);
    assert t == DateTime(CivilFromDays(days), sod / 3600, sod % 3600 / 60, sod % 60);
    assert t.hour * 3600 + t.minute * 60 + t.second == sod by {
      TimeOfDayParts(sod);
    }
    assert DaysFromCivil(t.date) == days by {
      CivilFromDaysCorrect(days);
    }
    assert s == 86400 * days + sod;
  }

  /** A second count splits uniquely into whole days and a second of the day. */
  lemma SplitDays(s: int, days: int, sod: int)
    requires s == 86400 * days + sod && 0 <= sod < 86400
    ensures s / 86400 == days && s % 86400 == sod
  {
  }

  /** A second of the day splits uniquely into hour, minute and second. */
  lemma SplitTimeOfDay(h: int, m: int, sec: int)
    requires 0 <= h < 24 && 0 <= m < 60 && 0 <= sec < 60
    ensures var sod := h * 3600 + m * 60 + sec;
      0 <= sod < 86400 && sod / 3600 == h && sod % 3600 / 60 == m && sod % 60 == sec
  {
    var sod := h * 3600 + m * 60 + sec;
    assert sod % 3600 == m * 60 + sec;
  }

  /** ... and it is the only valid date and time that does. */
  lemma IstDateTimeUnique(ms: int, t: DateTime)
    requires ValidDateTime(t)
    requires SecondsFromCivil(t) == EpochSecond(ms) + IstOffsetSeconds
    ensures IstDateTime(ms) == t
  {
    var s := EpochSecond(ms) + IstOffsetSeconds;
    var days := DaysFromCivil(t.date);
    var sod := t.hour * 3600 + t.minute * 60 + t.second;
    SplitTimeOfDay(t.hour, t.minute, t.second);
    SplitDays(s, days, sod);
    CivilFromDaysInverse(t.date);
  }

  // ---------------------------------------------------------------------------
  // en-US rendering

  function MonthName(m: int): string
    requires 1 <= m <= 12
  {
    match m
    case 1 => "January"    case 2 => "February"  case 3 => "March"
    case 4 => "April"      case 5 => "May"       case 6 => "June"
    case 7 => "July"       case 8 => "August"    case 9 => "September"
    case 10 => "October"   case 11 => "November" case _ => "December"
  }

  /** The first month from m on whose long name is the given text, or 0 when there is none. */
  function MonthFrom(name: string, m: int): (r: int)
    requires 1 <= m <= 13
    ensures r == 0 || (m <= r <= 12 && MonthName(r) == name)
    decreases 13 - m
  {
    if m == 13 then 0 else if MonthName(m) == name then m else MonthFrom(name, m + 1)
  }

  /** The month whose long name is the given text, or 0 when there is none. */
  function MonthOfName(name: string): (m: int)
    ensures 0 <= m <= 12
    ensures m != 0 ==> MonthName(m) == name
  {
    MonthFrom(name, 1)
  }

  /** A month name is one word: it has no space, and it names its own month. */
  lemma MonthNameShape(m: int)
    requires 1 <= m <= 12
    ensures forall k :: 0 <= k < |MonthName(m)| ==> MonthName(m)[k] != ' '
    ensures MonthOfName(MonthName(m)) == m
  {
    MonthFromFinds(m, 1);
  }

  lemma {:induction false} MonthFromFinds(m: int, k: int)
    requires 1 <= k <= m <= 12
    ensures MonthFrom(MonthName(m), k) == m
    decreases m - k
  {
    if k < m {
      MonthNamesDistinct(k, m);
      MonthFromFinds(m, k + 1);
    }
  }

  predicate IsDigit(c: char) {
    '0' <= c <= '9'
  }

  predicate IsDigits(s: string) {
    forall i :: 0 <= i < |s| ==> IsDigit(s[i])
  }

  function DigitChar(d: int): (c: char)
    requires 0 <= d < 10
    ensures IsDigit(c)
  {
    ('0' as int + d) as char
  }

  function DigitValue(c: char): int
    requires IsDigit(c)
  {
    c as int - '0' as int
  }

  /** Decimal notation of n without leading zeros. */
  function Decimal(n: nat): string {
    if n < 10 then [DigitChar(n)] else Decimal(n / 10) + [DigitChar(n % 10)]
  }

  /** Two-digit notation, with a leading zero below 10. */
  function Pad2(n: nat): string
    requires n < 100
  {
    [DigitChar(n / 10), DigitChar(n % 10)]
  }

  /** Negative year numbers are written with a minus sign; year 0 (1 BCE) is "0". The
      text reads back as the year. */
  function YearText(y: int): (s: string)
    ensures IsYearText(s) && ParseYear(s) == y
  {
    if y < 0 then
      DecimalRoundTrip(-y);
      assert ("-" + Decimal(-y))[1..] == Decimal(-y);
      "-" + Decimal(-y)
    else
      DecimalRoundTrip(y);
      Decimal(y)
  }

  /** "January 1, 2024": the date as toLocaleDateString('en-US', {month: 'long', day: 'numeric', year: 'numeric'}) writes it. */
  function DateText(d: Date): (s: string)
    requires ValidDate(d)
    ensures MonthName(d.month) + " " <= s
  {
    MonthName(d.month) + " " + (Decimal(d.day) + ", " + YearText(d.year))
  }

  /** "17:30:00": the time as toLocaleTimeString('en-US', {hour12: false, hour, minute, second: '2-digit'}) writes it, hours 00..23. */
  function TimeText(t: DateTime): (s: string)
    requires ValidDateTime(t)
    ensures |s| == 8 && s[2] == ':' && s[5] == ':'
    ensures IsDigits(s[..2] + s[3..5] + s[6..])
  {
    Pad2(t.hour) + ":" + Pad2(t.minute) + ":" + Pad2(t.second)
  }

  /** The date part of an instant, in Asia/Kolkata. */
  function DatePart(ms: int): string {
    DateText(IstDateTime(ms).date)
  }

  /** The time part of an instant, in Asia/Kolkata. */
  function TimePart(ms: int): string {
    TimeText(IstDateTime(ms))
  }

  // ---------------------------------------------------------------------------
  // Reading the rendering back

  /** The number a string of decimal digits denotes. */
  function ParseDecimal(s: string): nat
    requires IsDigits(s)
  {
    if s == [] then 0 else ParseDecimal(s[..|s| - 1]) * 10 + DigitValue(s[|s| - 1])
  }

  lemma {:induction false} DecimalRoundTrip(n: nat)
    ensures IsDigits(Decimal(n)) && ParseDecimal(Decimal(n)) == n
    ensures 1 <= |Decimal(n)| && (Decimal(n)[0] == '0' ==> n == 0)
    decreases n
  {
    if n >= 10 {
      DecimalRoundTrip(n / 10);
      var s := Decimal(n);
      assert s[..|s| - 1] == Decimal(n / 10);
    }
  }

  /** Reads "HH:MM:SS" back into (hour, minute, second). */
  function ParseTime(s: string): (int, int, int)
    requires |s| == 8 && s[2] == ':' && s[5] == ':'
    requires IsDigits(s[..2] + s[3..5] + s[6..])
  {
    var d := s[..2] + s[3..5] + s[6..];
    (DigitValue(d[0]) * 10 + DigitValue(d[1]),
     DigitValue(d[2]) * 10 + DigitValue(d[3]),
     DigitValue(d[4]) * 10 + DigitValue(d[5]))
  }

  /** A year text: digits, or a minus sign and digits. */
  predicate IsYearText(s: string) {
    if |s| > 0 && s[0] == '-' then 1 < |s| && IsDigits(s[1..]) else 0 < |s| && IsDigits(s)
  }

  function ParseYear(s: string): int
    requires IsYearText(s)
  {
    if s[0] == '-' then 0 - ParseDecimal(s[1..]) else ParseDecimal(s)
  }

  /** Reads "<Month> <Day>, <Year>" back into a date; None for a text of another shape. */
  function ParseDate(s: string): Option<Date> {
    var i := Strings.IndexOf(s, ' ');
    if i == |s| then None
    else
      var m := MonthOfName(s[..i]);
      match ParseDayYear(s[i + 1..])
      case None => None
      case Some(dayYear) => if m == 0 then None else Some(Date(dayYear.1, m, dayYear.0))
  }

  /** Reads "<Day>, <Year>" back into the day and the year. */
  function ParseDayYear(s: string): Option<(nat, int)> {
    var j := Strings.IndexOf(s, ',');
    if j + 1 >= |s| || s[j + 1] != ' ' || !IsDigits(s[..j]) || !IsYearText(s[j + 2..]) then None
    else Some((ParseDecimal(s[..j]), ParseYear(s[j + 2..])))
  }

  /** "<digits>, <year text>" splits at its comma back into the day and the year. */
  lemma DayYearSplits(digits: string, yearText: string)
    requires IsDigits(digits) && IsYearText(yearText)
    ensures ParseDayYear(digits + ", " + yearText) == Some((ParseDecimal(digits), ParseYear(yearText)))
  {
    Strings.SplitAtFirst(digits, ',', " " + yearText);
    var s := digits + [','] + (" " + yearText);
    assert digits + ", " + yearText == s;
    assert s[|digits| + 2..] == yearText;
  }

  /** "<name> <rest>", with a one-word name, splits at its first space into the two. */
  lemma DateSplits(name: string, m: int, rest: string, day: nat, year: int)
    requires forall k :: 0 <= k < |name| ==> name[k] != ' '
    requires 1 <= m <= 12 && MonthOfName(name) == m
    requires ParseDayYear(rest) == Some((day, year))
    ensures ParseDate(name + " " + rest) == Some(Date(year, m, day))
  {
    Strings.SplitAtFirst(name, ' ', rest);
    assert name + " " + rest == name + [' '] + rest;
  }

  /** The date text reads back as the date. */
  lemma DateTextRoundTrip(d: Date)
    requires ValidDate(d)
    ensures ParseDate(DateText(d)) == Some(d)
  {
    DayYearReadBack(d.day, d.year);
    MonthNameShape(d.month);
    DateSplits(MonthName(d.month), d.month, Decimal(d.day) + ", " + YearText(d.year), d.day, d.year);
  }

  lemma DayYearReadBack(day: nat, year: int)
    ensures ParseDayYear(Decimal(day) + ", " + YearText(year)) == Some((day, year))
  {
    DecimalRoundTrip(day);
    DayYearSplits(Decimal(day), YearText(year));
  }

  /** Dates with the same text are the same date. */
  lemma DateTextInjective(a: Date, b: Date)
    requires ValidDate(a) && ValidDate(b)
    ensures DateText(a) == DateText(b) <==> a == b
  {
    if DateText(a) == DateText(b) {
      DateTextRoundTrip(a);
      DateTextRoundTrip(b);
    }
  }

  /** The time text is exactly eight characters "HH:MM:SS" and gives the hour, minute and second back. */
  lemma TimeTextRoundTrip(t: DateTime)
    requires ValidDateTime(t)
    ensures var s := TimeText(t);
      |s| == 8 && s[2] == ':' && s[5] == ':' && IsDigits(s[..2] + s[3..5] + s[6..]) &&
      ParseTime(s) == (t.hour, t.minute, t.second)
  {
    var s := TimeText(t);
    assert s[..2] + s[3..5] + s[6..] == Pad2(t.hour) + Pad2(t.minute) + Pad2(t.second);
  }

  /** Distinct months have distinct names, so the date text determines the month. */
  lemma MonthNamesDistinct(a: int, b: int)
    requires 1 <= a <= 12 && 1 <= b <= 12
    ensures MonthName(a) == MonthName(b) <==> a == b
  {
  }

  /** 2024-01-01T12:00:00Z is 1704110400000 ms after the epoch; in Asia/Kolkata it is 17:30:00 on 2024-01-01 ... */
  lemma NewYear2024Instant()
    ensures IstDateTime(1704110400000) == DateTime(Date(2024, 1, 1), 17, 30, 0)
  {
    var t := DateTime(Date(2024, 1, 1), 17, 30, 0);
    assert LeapYearsThrough(2023) == 490;
    assert DaysBeforeYear(2024) == 19723;
    assert SecondsFromCivil(t) == 1704130200;
    IstDateTimeUnique(1704110400000, t);
  }

  lemma NewYear2024Text()
    ensures DateText(Date(2024, 1, 1)) == "January 1, 2024"
    ensures TimeText(DateTime(Date(2024, 1, 1), 17, 30, 0)) == "17:30:00"
  {
    assert DigitChar(0) == '0' && DigitChar(2) == '2' && DigitChar(4) == '4';
    assert Decimal(2) == "2";
    assert Decimal(20) == "20";
    assert Decimal(202) == "202";
    assert Decimal(2024) == "2024";
    assert Decimal(1) == "1";
    assert Pad2(17) == "17" && Pad2(30) == "30" && Pad2(0) == "00";
  }

  /** ... which renders as "January 1, 2024 17:30:00". */
  lemma NewYear2024Example()
    ensures DatePart(1704110400000) + " " + TimePart(1704110400000) == "January 1, 2024 17:30:00"
  {
    var t := IstDateTime(1704110400000);
    assert t == DateTime(Date(2024, 1, 1), 17, 30, 0) by {
      NewYear2024Instant();
    }
    assert DateText(t.date) == "January 1, 2024" && TimeText(t) == "17:30:00" by {
      NewYear2024Text();
    }
  }
}
