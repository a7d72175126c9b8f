/** Calendar dates, Unix timestamps kept in 32 bits, and the text form of a timestamp. */
module Calendar {
  import opened Machine
  import Numerals

  const DAY: nat := 86400

  datatype Date = Date(year: nat, month: nat, day: nat, hour: nat, minute: nat, second: nat)

  predicate IsLeap(y: nat)
  {
    y % 4 == 0 && (y % 100 != 0 || y % 400 == 0)
  }

  function YearLength(y: nat): nat
  {
    if IsLeap(y) then 366 else 365
  }

  const DAYS_IN_MONTHS: seq<nat> := [31, 28, 31, 30, 31, 30, 31, 31, 30, 31, 30, 31]

  /** Days of month `m`, counted from 1. */
  function MonthLength(y: nat, m: nat): nat
    requires 1 <= m <= 12
  {
    DAYS_IN_MONTHS[m - 1] + if m == 2 && IsLeap(y) then 1 else 0
  }

  predicate Valid(d: Date)
  {
    && 1970 <= d.year && 1 <= d.month <= 12 && 1 <= d.day <= MonthLength(d.year, d.month)
    && d.hour < 24 && d.minute < 60 && d.second < 60
  }

  // ---------- Seconds since the epoch ----------

  function DaysBeforeYear(y: nat): nat
  {
    if y <= 1970 then 0 else DaysBeforeYear(y - 1) + YearLength(y - 1)
  }

  function DaysBeforeMonth(y: nat, m: nat): nat
    requires 1 <= m <= 13
  {
    if m == 1 then 0 else DaysBeforeMonth(y, m - 1) + MonthLength(y, m - 1)
  }

  function SecondOfDay(d: Date): nat
  {
    d.hour * 3600 + d.minute * 60 + d.second
  }

  /** The exact count, in unbounded arithmetic. */
  function Seconds(d: Date): nat
    requires Valid(d)
  {
    (DaysBeforeYear(d.year) + DaysBeforeMonth(d.year, d.month) + (d.day - 1)) * DAY + SecondOfDay(d)
  }

  lemma {:induction false} MonthsGrow(y: nat, m: nat, n: nat)
    requires 1 <= m < n <= 13
    ensures DaysBeforeMonth(y, m) + MonthLength(y, m) <= DaysBeforeMonth(y, n)
    decreases n
  {
    if m < n - 1 {
      MonthsGrow(y, m, n - 1);
    }
  }

  lemma {:induction false} YearsGrow(y: nat, z: nat)
    requires 1970 <= y < z
    ensures DaysBeforeYear(y) + YearLength(y) <= DaysBeforeYear(z)
    decreases z
  {
    if y < z - 1 {
      YearsGrow(y, z - 1);
    }
  }

  /** Months alternate between 31 and 30 days but for the break behind July; February has 28 or 29. */
  lemma MonthsAlternate(y: nat, m: nat)
    requires 1 <= m <= 12
    ensures MonthLength(y, m) ==
      if m != 2 then 30 + (m + m / 8) % 2 else if y % 4 == 0 && (y % 100 != 0 || y % 400 == 0) then 29 else 28
  {
  }

  /** Days of the year in front of each month, without a table: from March on they grow by 153 in five months. */
  lemma {:induction false} MonthsInClosedForm(y: nat, m: nat)
    requires 1 <= m <= 13
    ensures DaysBeforeMonth(y, m) == if m <= 2 then 31 * (m - 1) else 59 + (if IsLeap(y) then 1 else 0) + (153 * (m - 3) + 2) / 5
  {
    if m > 1 {
      MonthsInClosedForm(y, m - 1);
      MonthsAlternate(y, m - 1);
    }
  }

  /** Twelve months make a year. */
  lemma MonthsFillYear(y: nat)
    ensures DaysBeforeMonth(y, 13) == YearLength(y)
  {
    MonthsInClosedForm(y, 13);
  }

  lemma DayInsideYear(d: Date)
    requires Valid(d)
    ensures DaysBeforeMonth(d.year, d.month) + (d.day - 1) < YearLength(d.year)
    ensures SecondOfDay(d) < DAY
  {
    MonthsGrow(d.year, d.month, 13);
    MonthsFillYear(d.year);
  }

  predicate Before(a: Date, b: Date)
  {
    || a.year < b.year
    || (a.year == b.year && (
         || a.month < b.month
         || (a.month == b.month && (
              || a.day < b.day
              || (a.day == b.day && SecondOfDay(a) < SecondOfDay(b))))))
  }

  /** Later dates have larger counts. */
  lemma OrderIsKept(a: Date, b: Date)
    requires Valid(a) && Valid(b) && Before(a, b)
    ensures Seconds(a) < Seconds(b)
  {
    DayInsideYear(a);
    DayInsideYear(b);
    if a.year < b.year {
      YearsGrow(a.year, b.year);
    } else if a.month < b.month {
      MonthsGrow(a.year, a.month, b.month);
    }
  }

  lemma SecondsAreUnique(a: Date, b: Date)
    requires Valid(a) && Valid(b) && Seconds(a) == Seconds(b)
    ensures a == b
  {
    if Before(a, b) {
      OrderIsKept(a, b);
    } else if Before(b, a) {
      OrderIsKept(b, a);
    }
  }

  // ---------- RTC_TO_UNIX_TIMESTAMP ----------

  /** 32-bit addition. */
  function Add32(a: nat, b: nat): nat
  {
    (a + b) % U32
  }

  lemma Add32Wraps(a: nat, b: nat)
    ensures Add32(a % U32, b) == Add32(a, b)
  {
  }

  lemma Add32Small(a: nat, b: nat)
    requires a + b < U32
    ensures Add32(a, b) == a + b
  {
  }

  lemma {:induction false} DaysAreFew(y: nat)
    ensures DaysBeforeYear(y) <= 366 * y
  {
    if y > 1970 {
      DaysAreFew(y - 1);
    }
  }

  /** Days of the whole years since 1970. */
  method SumYears(year: nat) returns (timestamp: nat)
    requires 1970 <= year < 0x1_0000
    ensures timestamp == DaysBeforeYear(year)
  {
    timestamp := 0;
    var y := 1970;
    while y < year
      invariant 1970 <= y <= year
      invariant timestamp == DaysBeforeYear(y)
    {
      DaysAreFew(y);
      Add32Small(timestamp, if IsLeap(y) then 366 else 365);
      timestamp := Add32(timestamp, if IsLeap(y) then 366 else 365);
      y := y + 1;
    }
  }

  /** Days of a month counted from 0. */
  method DaysOfMonth(y: nat, m: nat) returns (days: nat)
    requires m < 12
    ensures days == MonthLength(y, m + 1)
  {
    days := DAYS_IN_MONTHS[m] + if m == 1 && IsLeap(y) then 1 else 0;
  }

  /** Days of the whole months before the date's are added. */
  method SumMonths(d: Date, days: nat) returns (timestamp: nat)
    requires Valid(d) && d.year < 0x1_0000 && days == DaysBeforeYear(d.year)
    ensures timestamp == days + DaysBeforeMonth(d.year, d.month)
  {
    timestamp := days;
    DaysAreFew(d.year);
    DayInsideYear(d);
    var m := 1;
    while m < d.month
      invariant 1 <= m <= d.month
      invariant timestamp == days + DaysBeforeMonth(d.year, m)
    {
      MonthsGrow(d.year, m, d.month);
      var length := DaysOfMonth(d.year, m - 1);
      Add32Small(timestamp, length);
      timestamp := Add32(timestamp, length);
      m := m + 1;
    }
  }

  /** The timestamp the kernel keeps: the exact count in 32 bits. */
  method ToUnixTimestamp(d: Date) returns (timestamp: nat)
    requires Valid(d) && d.year < 0x1_0000
    ensures timestamp == Seconds(d) % U32
  {
    timestamp := SumYears(d.year);
    timestamp := SumMonths(d, timestamp);
    DaysAreFew(d.year);
    DayInsideYear(d);
    Add32Small(timestamp, d.day - 1);
    timestamp := Add32(timestamp, d.day - 1);
    Add32Wraps(timestamp * DAY, d.hour * 3600 + d.minute * 60 + d.second);
    timestamp := Add32(timestamp * DAY % U32, d.hour * 3600 + d.minute * 60 + d.second);
  }

  // ---------- TIMESTAMP_TO_STRING ----------

  /** Take whole years off `t`, starting with year `y`. */
  function YearFrom(t: nat, y: nat): (r: (nat, nat))
    requires 1970 <= y
    ensures y <= r.0
    ensures DaysBeforeYear(r.0) * DAY + r.1 == DaysBeforeYear(y) * DAY + t
    ensures r.1 < YearLength(r.0) * DAY
  {
    if t >= YearLength(y) * DAY then YearFrom(t - YearLength(y) * DAY, y + 1) else (y, t)
  }

  /** `t` seconds from the start of month `m` still lie in the year. */
  predicate InMonths(y: nat, t: nat, m: nat)
    requires 1 <= m <= 13
  {
    DaysBeforeMonth(y, m) * DAY + t < DaysBeforeMonth(y, 13) * DAY
  }

  /** Take whole months off `t`, starting with month `m` of year `y`. */
  function MonthFrom(y: nat, t: nat, m: nat): (r: (nat, nat))
    requires 1 <= m <= 12 && InMonths(y, t, m)
    ensures m <= r.0 <= 12
    ensures DaysBeforeMonth(y, r.0) * DAY + r.1 == DaysBeforeMonth(y, m) * DAY + t
    ensures r.1 < MonthLength(y, r.0) * DAY
    decreases 12 - m
  {
    if t < MonthLength(y, m) * DAY then (m, t)
    else
      assert m < 12;
      MonthFrom(y, t - MonthLength(y, m) * DAY, m + 1)
  }

  /** The date of a timestamp. */
  function FromUnix(t: nat): (d: Date)
    ensures Valid(d) && Seconds(d) == t
  {
    var (y, inYear) := YearFrom(t, 1970);
    MonthsFillYear(y);
    var (m, inMonth) := MonthFrom(y, inYear, 1);
    var day, inDay := inMonth / DAY, inMonth % DAY;
    var d := Date(y, m, 1 + day, inDay / 3600, inDay % 3600 / 60, inDay % 3600 % 60);
    assert SecondOfDay(d) == inDay;
    d
  }

  /** The inverse of `Seconds`. */
  lemma FromUnixOfSeconds(d: Date)
    requires Valid(d)
    ensures FromUnix(Seconds(d)) == d
  {
    SecondsAreUnique(FromUnix(Seconds(d)), d);
  }

  function Digit(k: nat): char
    requires k < 10
  {
    (48 + k) as char
  }

  /** "YYYY-MM-DD hh:mm:ss" and its terminator. */
  function Text(d: Date): seq<char>
    requires Valid(d)
  {
    [ Digit(d.year / 1000 % 10), Digit(d.year / 100 % 10), Digit(d.year / 10 % 10), Digit(d.year % 10), '-',
      Digit(d.month / 10), Digit(d.month % 10), '-', Digit(d.day / 10), Digit(d.day % 10), ' ',
      Digit(d.hour / 10), Digit(d.hour % 10), ':', Digit(d.minute / 10), Digit(d.minute % 10), ':',
      Digit(d.second / 10), Digit(d.second % 10), '\0' ]
  }

  /** The year loop. */
  method SplitYears(t0: nat) returns (y: nat, t: nat)
    ensures (y, t) == YearFrom(t0, 1970)
  {
    t, y := t0, 1970;
    while t >= YearLength(y) * DAY
      invariant 1970 <= y
      invariant YearFrom(t, y) == YearFrom(t0, 1970)
    {
      t := t - YearLength(y) * DAY;
      y := y + 1;
    }
  }

  lemma MonthStep(y: nat, t: nat, m: nat, length: nat)
    requires 1 <= m <= 12 && InMonths(y, t, m) && length == MonthLength(y, m) * DAY
    ensures t < length ==> MonthFrom(y, t, m) == (m, t)
    ensures t >= length ==> m < 12 && InMonths(y, t - length, m + 1) && MonthFrom(y, t, m) == MonthFrom(y, t - length, m + 1)
  {
  }

  /** The month loop; `m` counts from 0. */
  method SplitMonths(y: nat, t0: nat) returns (m: nat, t: nat)
    requires InMonths(y, t0, 1)
    ensures m < 12 && (m + 1, t) == MonthFrom(y, t0, 1)
  {
    m, t := 0, t0;
    while m < 12
      invariant 0 <= m < 12 && InMonths(y, t, m + 1)
      invariant MonthFrom(y, t, m + 1) == MonthFrom(y, t0, 1)
    {
      var days := DaysOfMonth(y, m);
      MonthStep(y, t, m + 1, days * DAY);
      if t < days * DAY {
        break;
      }
      t := t - days * DAY;
      m := m + 1;
    }
  }

  method SplitTimestamp(t0: nat) returns (y: nat, m: nat, d: nat, h: nat, min: nat, s: nat)
    ensures m < 12 && Date(y, m + 1, d, h, min, s) == FromUnix(t0)
  {
    var t;
    y, t := SplitYears(t0);
    MonthsFillYear(y);
    m, t := SplitMonths(y, t);
    d := 1 + t / DAY;
    t := t % DAY;
    h := t / 3600;
    t := t % 3600;
    min := t / 60;
    s := t % 60;
  }

  /** Fills `buffer` with the text of a timestamp; the offset is in whole hours. */
  method TimestampToString(timestamp: nat, utcOffset: int, buffer: array<char>)
    requires timestamp < U32 && buffer.Length == 20 && 0 <= timestamp + utcOffset * 3600 < U64
    modifies buffer
    ensures buffer[..] == Text(FromUnix(timestamp + utcOffset * 3600))
  {
    var y, m, d, h, min, s := SplitTimestamp(timestamp + utcOffset * 3600);
    FillDate(buffer, y, m, d);
    FillTime(buffer, h, min, s);
    JoinText(Date(y, m + 1, d, h, min, s), buffer[..11], buffer[11..]);
    assert buffer[..] == buffer[..11] + buffer[11..];
  }

  lemma JoinText(d: Date, date: seq<char>, time: seq<char>)
    requires Valid(d)
    requires date == [Digit(d.year / 1000 % 10), Digit(d.year / 100 % 10), Digit(d.year / 10 % 10), Digit(d.year % 10), '-',
                      Digit(d.month / 10), Digit(d.month % 10), '-', Digit(d.day / 10), Digit(d.day % 10), ' ']
    requires time == [Digit(d.hour / 10), Digit(d.hour % 10), ':', Digit(d.minute / 10), Digit(d.minute % 10), ':',
                      Digit(d.second / 10), Digit(d.second % 10), '\0']
    ensures date + time == Text(d)
  {
  }

  method FillDate(buffer: array<char>, y: nat, m: nat, d: nat)
    requires m < 12 && d < 32 && buffer.Length == 20
    modifies buffer
    ensures buffer[..11] == [Digit(y / 1000 % 10), Digit(y / 100 % 10), Digit(y / 10 % 10), Digit(y % 10), '-',
                             Digit((m + 1) / 10), Digit((m + 1) % 10), '-', Digit(d / 10), Digit(d % 10), ' ']
  {
    buffer[0], buffer[1] := Digit(y / 1000 % 10), Digit(y / 100 % 10);
    buffer[2], buffer[3], buffer[4] := Digit(y / 10 % 10), Digit(y % 10), '-';
    buffer[5], buffer[6], buffer[7] := Digit((m + 1) / 10), Digit((m + 1) % 10), '-';
    buffer[8], buffer[9], buffer[10] := Digit(d / 10), Digit(d % 10), ' ';
  }

  method FillTime(buffer: array<char>, h: nat, min: nat, s: nat)
    requires h < 24 && min < 60 && s < 60 && buffer.Length == 20
    modifies buffer
    ensures buffer[..11] == old(buffer[..11])
    ensures buffer[11..] == [Digit(h / 10), Digit(h % 10), ':', Digit(min / 10), Digit(min % 10), ':',
                             Digit(s / 10), Digit(s % 10), '\0']
  {
    buffer[11], buffer[12], buffer[13] := Digit(h / 10), Digit(h % 10), ':';
    buffer[14], buffer[15], buffer[16] := Digit(min / 10), Digit(min % 10), ':';
    buffer[17], buffer[18], buffer[19] := Digit(s / 10), Digit(s % 10), '\0';
  }

  // ---------- Both ways ----------

  lemma TwoDigitsUnique(j: nat, k: nat)
    requires j < 100 && k < 100 && Digit(j / 10) == Digit(k / 10) && Digit(j % 10) == Digit(k % 10)
    ensures j == k
  {
    assert j == j / 10 * 10 + j % 10;
    assert k == k / 10 * 10 + k % 10;
  }

  lemma YearDigitsUnique(y: nat, z: nat)
    requires y < 10000 && z < 10000
    requires y / 1000 % 10 == z / 1000 % 10 && y / 100 % 10 == z / 100 % 10 && y / 10 % 10 == z / 10 % 10 && y % 10 == z % 10
    ensures y == z
  {
    NextDigit(y);
    NextDigit(z);
    SameTail(y / 100, z / 100);
    SameTail(y / 10, z / 10);
    SameTail(y, z);
  }

  lemma NextDigit(y: nat)
    ensures y / 100 == y / 10 / 10 && y / 1000 == y / 100 / 10
  {
  }

  lemma SameTail(y: nat, z: nat)
    requires y / 10 == z / 10 && y % 10 == z % 10
    ensures y == z
  {
  }

  /** Four year digits tell dates apart up to the year 9999. */
  lemma TextIsUnique(a: Date, b: Date)
    requires Valid(a) && Valid(b) && a.year < 10000 && b.year < 10000 && Text(a) == Text(b)
    ensures a == b
  {
    var s, t := Text(a), Text(b);
    assert s[0] == t[0] && s[1] == t[1] && s[2] == t[2] && s[3] == t[3];
    YearDigitsUnique(a.year, b.year);
    assert s[5] == t[5] && s[6] == t[6];
    TwoDigitsUnique(a.month, b.month);
    assert s[8] == t[8] && s[9] == t[9];
    TwoDigitsUnique(a.day, b.day);
    assert s[11] == t[11] && s[12] == t[12];
    TwoDigitsUnique(a.hour, b.hour);
    assert s[14] == t[14] && s[15] == t[15];
    TwoDigitsUnique(a.minute, b.minute);
    assert s[17] == t[17] && s[18] == t[18];
    TwoDigitsUnique(a.second, b.second);
  }

  lemma TwoDigitsSpell(j: nat, t: seq<char>)
    requires j < 100 && t == [Digit(j / 10), Digit(j % 10)]
    ensures Numerals.Value(t, 10) == j
  {
    assert t == ([] + [t[0]]) + [t[1]];
    Numerals.ValuePush([], t[0], 10);
    Numerals.ValuePush([t[0]], t[1], 10);
  }

  lemma FourDigitsSpell(y: nat, t: seq<char>)
    requires y < 10000 && t == [Digit(y / 1000 % 10), Digit(y / 100 % 10), Digit(y / 10 % 10), Digit(y % 10)]
    ensures Numerals.Value(t, 10) == y
  {
    NextDigit(y);
    var h := [Digit(y / 100 / 10), Digit(y / 100 % 10)];
    TwoDigitsSpell(y / 100, h);
    assert t == (h + [t[2]]) + [t[3]];
    Numerals.ValuePush(h, t[2], 10);
    Numerals.ValuePush(h + [t[2]], t[3], 10);
  }

  /** The text spells year, month, day, hour, minute and second in decimal, with the usual separators. */
  lemma TextSpells(d: Date)
    requires Valid(d) && d.year < 10000
    ensures var t := Text(d);
      && |t| == 20 && t[4] == t[7] == '-' && t[10] == ' ' && t[13] == t[16] == ':' && t[19] == '\0'
      && Numerals.Value(t[0..4], 10) == d.year && Numerals.Value(t[5..7], 10) == d.month && Numerals.Value(t[8..10], 10) == d.day
      && Numerals.Value(t[11..13], 10) == d.hour && Numerals.Value(t[14..16], 10) == d.minute && Numerals.Value(t[17..19], 10) == d.second
  {
    var t := Text(d);
    FourDigitsSpell(d.year, t[0..4]);
    TwoDigitsSpell(d.month, t[5..7]);
    TwoDigitsSpell(d.day, t[8..10]);
    TwoDigitsSpell(d.hour, t[11..13]);
    TwoDigitsSpell(d.minute, t[14..16]);
    TwoDigitsSpell(d.second, t[17..19]);
  }

  /** A count that wraps belongs to an earlier date. */
  lemma WrappedIsEarlier(d: Date, e: Date)
    requires Valid(d) && Valid(e) && Seconds(e) < Seconds(d)
    ensures e.year <= d.year && e != d
  {
    if d.year < e.year {
      OrderIsKept(d, e);
    }
  }

  /** Printing the kept timestamp of a date gives that date back exactly while the count fits in 32 bits. */
  lemma PrintsBackIffNoWrap(d: Date)
    requires Valid(d) && d.year < 10000
    ensures Text(FromUnix(Seconds(d) % U32)) == Text(d) <==> Seconds(d) < U32
  {
    var t := Seconds(d) % U32;
    if Seconds(d) < U32 {
      assert t == Seconds(d);
      FromUnixOfSeconds(d);
    } else {
      var e := FromUnix(t);
      assert Seconds(e) == t < Seconds(d);
      WrappedIsEarlier(d, e);
      if Text(e) == Text(d) {
        TextIsUnique(e, d);
        assert false;
      }
    }
  }

  /** Leap years before `y`, in closed form. */
  function LeapsBefore(y: nat): int
    requires y > 0
  {
    (y - 1) / 4 - (y - 1) / 100 + (y - 1) / 400
  }

  lemma OneMoreLeap(y: nat)
    requires y > 0
    ensures LeapsBefore(y + 1) == LeapsBefore(y) + if IsLeap(y) then 1 else 0
  {
    assert y / 4 == (y - 1) / 4 + if y % 4 == 0 then 1 else 0;
    assert y / 100 == (y - 1) / 100 + if y % 100 == 0 then 1 else 0;
    assert y / 400 == (y - 1) / 400 + if y % 400 == 0 then 1 else 0;
  }

  lemma {:induction false} DaysInClosedForm(y: nat)
    requires 1970 <= y
    ensures DaysBeforeYear(y) == 365 * (y - 1970) + LeapsBefore(y) - LeapsBefore(1970)
  {
    if y > 1970 {
      DaysInClosedForm(y - 1);
      OneMoreLeap(y - 1);
    }
  }

  /**
    The count without loops or tables: years that begin in March, 365 days each and one
    more for every leap day gone by, and 719468 days from the year 0 to the epoch.
   */
  lemma SecondsInClosedForm(d: Date)
    requires Valid(d)
    ensures var y, m := if d.month <= 2 then d.year - 1 else d.year, if d.month <= 2 then d.month + 9 else d.month - 3;
      Seconds(d) == (365 * y + y / 4 - y / 100 + y / 400 + (153 * m + 2) / 5 + d.day - 1 - 719468) * 86400
                    + d.hour * 3600 + d.minute * 60 + d.second
  {
    DaysOfDate(d.year, d.month, d.day);
  }

  lemma DaysOfDate(year: nat, month: nat, day: nat)
    requires 1970 <= year && 1 <= month <= 12
    ensures var y, m := if month <= 2 then year - 1 else year, if month <= 2 then month + 9 else month - 3;
      DaysBeforeYear(year) + DaysBeforeMonth(year, month) + day == 365 * y + y / 4 - y / 100 + y / 400 + (153 * m + 2) / 5 + day - 719468
  {
    DaysInClosedForm(year);
    MonthsInClosedForm(year, month);
    OneMoreLeap(year);
    LeapsOfEpoch();
  }

  lemma LeapsOfEpoch()
    ensures LeapsBefore(1970) == 477
  {
  }

  /** The last second that 32 bits can count. */
  const LAST: Date := Date(2106, 2, 7, 6, 28, 15)

  lemma SecondsOfLast()
    ensures Valid(LAST) && Seconds(LAST) == U32 - 1
  {
    DaysInClosedForm(2106);
    assert DaysBeforeYear(2106) == 49673;
    MonthsInClosedForm(2106, 2);
  }

  /** Exactly the dates after 7 February 2106, 06:28:15, wrap. */
  lemma NoWrapIffNotAfterLast(d: Date)
    requires Valid(d)
    ensures Seconds(d) < U32 <==> !Before(LAST, d)
  {
    SecondsOfLast();
    if Before(LAST, d) {
      OrderIsKept(LAST, d);
    } else if Before(d, LAST) {
      OrderIsKept(d, LAST);
    }
  }

  /** A date counted 2^32 seconds after another is printed as that other one. */
  lemma PrintsEarlierDate(d: Date, e: Date)
    requires Valid(d) && Valid(e) && Seconds(e) < U32 && Seconds(d) == Seconds(e) + U32
    ensures FromUnix(Seconds(d) % U32) == e
  {
    assert Seconds(d) % U32 == Seconds(e);
    FromUnixOfSeconds(e);
  }

  /** The second after the last has the timestamp of the epoch. */
  lemma NextSecondWraps(d: Date)
    requires d == LAST.(second := 16)
    ensures Valid(d) && Seconds(d) % U32 == 0
  {
    SecondsOfLast();
    NextSecond(LAST, d);
  }

  lemma NextSecond(a: Date, b: Date)
    requires Valid(a) && Valid(b) && b == a.(second := a.second + 1)
    ensures Seconds(b) == Seconds(a) + 1
  {
  }

  /** For every date of four-digit years: printed back if and only if not after the last second. */
  lemma PrintsBackIffNotAfterLast(d: Date)
    requires Valid(d) && d.year < 10000
    ensures Text(FromUnix(Seconds(d) % U32)) == Text(d) <==> !Before(LAST, d)
  {
    PrintsBackIffNoWrap(d);
    NoWrapIffNotAfterLast(d);
  }
}
