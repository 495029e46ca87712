/** Unix seconds to packed DOS date and time. */
module DosTime {
  import opened Words

  const DAY_SECONDS := 86400
  const EPOCH := 1970
  const DOS_EPOCH := 1980

  /** 1980-01-01 in Unix seconds. */
  const DOS_START := 315532800

  predicate Leap(year: nat) {
    year % 400 == 0 || (year % 100 != 0 && year % 4 == 0)
  }

  function YearDays(year: nat): nat { if Leap(year) then 366 else 365 }

  const MONTH_DAYS: seq<nat> := [31, 28, 31, 30, 31, 30, 31, 31, 30, 31, 30, 31]

  function MonthDays(year: nat, month: nat): nat
    requires 1 <= month <= 12
  {
    if month == 2 && Leap(year) then 29 else MONTH_DAYS[month - 1]
  }

  // ---------------------------------------------------------------- the calendar

  /** Days from 1970-01-01 to January 1st of a year. */
  function DaysTo(year: nat): nat
    requires year >= EPOCH
  {
    if year == EPOCH then 0 else DaysTo(year - 1) + YearDays(year - 1)
  }

  /** Days of the months before `month`. */
  function DaysToMonth(year: nat, month: nat): nat
    requires 1 <= month <= 13
  {
    if month == 1 then 0 else DaysToMonth(year, month - 1) + MonthDays(year, month - 1)
  }

  datatype Date = Date(year: nat, month: nat, day: nat)

  predicate Valid(d: Date) {
    d.year >= EPOCH && 1 <= d.month <= 12 && 1 <= d.day <= MonthDays(d.year, d.month)
  }

  /** Days from 1970-01-01 to a date. */
  function DayNumber(d: Date): nat
    requires Valid(d)
  {
    DaysTo(d.year) + DaysToMonth(d.year, d.month) + d.day - 1
  }

  lemma YearIsItsMonths(year: nat)
    ensures DaysToMonth(year, 13) == YearDays(year)
  {
    assert DaysToMonth(year, 2) == 31;
    assert DaysToMonth(year, 3) == 31 + MonthDays(year, 2);
    assert DaysToMonth(year, 4) == DaysToMonth(year, 3) + 31;
    assert DaysToMonth(year, 5) == DaysToMonth(year, 4) + 30;
    assert DaysToMonth(year, 6) == DaysToMonth(year, 5) + 31;
    assert DaysToMonth(year, 7) == DaysToMonth(year, 6) + 30;
    assert DaysToMonth(year, 8) == DaysToMonth(year, 7) + 31;
    assert DaysToMonth(year, 9) == DaysToMonth(year, 8) + 31;
    assert DaysToMonth(year, 10) == DaysToMonth(year, 9) + 30;
    assert DaysToMonth(year, 11) == DaysToMonth(year, 10) + 31;
    assert DaysToMonth(year, 12) == DaysToMonth(year, 11) + 30;
  }

  lemma {:induction false} LaterYear(y: nat, z: nat)
    requires EPOCH <= y < z
    ensures DaysTo(y) + YearDays(y) <= DaysTo(z)
    decreases z
  {
    if y + 1 < z {
      LaterYear(y, z - 1);
    }
  }

  lemma {:induction false} LaterMonth(year: nat, m: nat, n: nat)
    requires 1 <= m < n <= 13
    ensures DaysToMonth(year, m) + MonthDays(year, m) <= DaysToMonth(year, n)
    decreases n
  {
    if m + 1 < n {
      LaterMonth(year, m, n - 1);
    }
  }

  lemma {:induction false} DaysToBound(year: nat)
    requires year >= EPOCH
    ensures 365 * (year - EPOCH) <= DaysTo(year)
  {
    if year > EPOCH {
      DaysToBound(year - 1);
    }
  }

  function PackDate(d: Date): int {
    (d.year - DOS_EPOCH) * 512 + d.month * 32 + d.day
  }

  /** Dates are in the order of their day numbers, and so are their packed forms. */
  lemma DayOrder(a: Date, b: Date)
    requires Valid(a) && Valid(b) && DayNumber(a) <= DayNumber(b)
    ensures PackDate(a) <= PackDate(b)
    ensures DayNumber(a) == DayNumber(b) ==> a == b
  {
    YearIsItsMonths(a.year);
    YearIsItsMonths(b.year);
    LaterMonth(a.year, a.month, 13);
    LaterMonth(b.year, b.month, 13);
    if a.year < b.year {
      LaterYear(a.year, b.year);
    } else if b.year < a.year {
      LaterYear(b.year, a.year);
    } else if a.month < b.month {
      LaterMonth(a.year, a.month, b.month);
    } else if b.month < a.month {
      LaterMonth(a.year, b.month, a.month);
    }
  }

  // ---------------------------------------------------------------- the civil calendar

  /** Days from 1970-01-01 to a date of the Gregorian calendar, without a table of months and
      without a rule for leap years: years begin in March, so that the leap day comes last. */
  function CivilDay(year: nat, month: nat, day: nat): int {
    var y := if month > 2 then year else year - 1;
    var m := if month > 2 then month - 3 else month + 9;
    365 * y + y / 4 - y / 100 + y / 400 + (153 * m + 2) / 5 + day - 1 - 719468
  }

  lemma LeapStep(y: nat)
    requires y > 0
    ensures y / 4 - y / 100 + y / 400 == (y - 1) / 4 - (y - 1) / 100 + (y - 1) / 400 + if Leap(y) then 1 else 0
  {
    FloorStep(y, 4);
    FloorStep(y, 100);
    FloorStep(y, 400);
    assert y % 400 == 0 ==> y % 100 == 0;
    assert y % 100 == 0 ==> y % 4 == 0;
  }

  lemma FloorStep(y: nat, k: nat)
    requires y > 0 && k in {4, 100, 400}
    ensures y / k == (y - 1) / k + if y % k == 0 then 1 else 0
  {
  }

  lemma {:induction false} NewYear(year: nat)
    requires year >= EPOCH
    ensures DaysTo(year) == CivilDay(year, 1, 1)
  {
    hide Leap;
    if year > EPOCH {
      NewYear(year - 1);
      LeapStep(year - 1);
    }
  }

  /** Days before each month of a year, the leap day apart. */
  lemma MonthStarts(year: nat, month: nat)
    requires 1 <= month <= 12
    ensures DaysToMonth(year, month) ==
            if month <= 2 then 31 * (month - 1)
            else 59 + (153 * (month - 3) + 2) / 5 + if Leap(year) then 1 else 0
  {
    hide Leap;
    assert DaysToMonth(year, 3) == DaysToMonth(year, 2) + MonthDays(year, 2) && DaysToMonth(year, 2) == 31;
    assert DaysToMonth(year, 5) == DaysToMonth(year, 4) + 30 && DaysToMonth(year, 4) == DaysToMonth(year, 3) + 31;
    assert DaysToMonth(year, 7) == DaysToMonth(year, 6) + 30 && DaysToMonth(year, 6) == DaysToMonth(year, 5) + 31;
    assert DaysToMonth(year, 9) == DaysToMonth(year, 8) + 31 && DaysToMonth(year, 8) == DaysToMonth(year, 7) + 31;
    assert DaysToMonth(year, 11) == DaysToMonth(year, 10) + 31 && DaysToMonth(year, 10) == DaysToMonth(year, 9) + 30;
    assert DaysToMonth(year, 12) == DaysToMonth(year, 11) + 30;
  }

  /** The code's calendar is the civil one. */
  lemma DayNumberIsCivil(d: Date)
    requires Valid(d)
    ensures DayNumber(d) == CivilDay(d.year, d.month, d.day)
  {
    hide Leap, DaysTo, DaysToMonth;
    NewYear(d.year);
    MonthStarts(d.year, d.month);
    LeapStep(d.year);
  }

  /** And its months have the civil lengths: the first of the next month follows the last day
      of each. */
  lemma MonthsAreCivil(year: nat, month: nat)
    requires year >= EPOCH && 1 <= month <= 12
    ensures CivilDay(year, month, MonthDays(year, month)) + 1
            == if month == 12 then CivilDay(year + 1, 1, 1) else CivilDay(year, month + 1, 1)
  {
    hide Leap, DaysTo, DaysToMonth, MonthDays;
    LastIsValid(year, month);
    DayNumberIsCivil(Date(year, month, MonthDays(year, month)));
    NextMonth(year, month);
    if month == 12 {
      YearIsItsMonths(year);
      NextYear(year);
      FirstMonth(year + 1);
      NewYear(year + 1);
    } else {
      LastIsValid(year, month + 1);
      DayNumberIsCivil(Date(year, month + 1, 1));
    }
  }

  lemma LastIsValid(year: nat, month: nat)
    requires year >= EPOCH && 1 <= month <= 12
    ensures Valid(Date(year, month, 1)) && Valid(Date(year, month, MonthDays(year, month)))
  {
  }

  // ---------------------------------------------------------------- splitting days

  function YearOf(days: nat, year: nat): (r: nat)
    requires year >= EPOCH
    ensures r >= year
    decreases days
  {
    if days < YearDays(year) then year else YearOf(days - YearDays(year), year + 1)
  }

  function MonthOf(year: nat, days: nat, month: nat): (r: nat)
    requires 1 <= month <= 12
    ensures month <= r <= 12
    decreases 12 - month
  {
    if month == 12 || days < MonthDays(year, month) then month
    else MonthOf(year, days - MonthDays(year, month), month + 1)
  }

  lemma {:induction false} YearOfSplits(days: nat, year: nat)
    requires year >= EPOCH
    ensures DaysTo(YearOf(days, year)) <= DaysTo(year) + days < DaysTo(YearOf(days, year)) + YearDays(YearOf(days, year))
    decreases days
  {
    if days >= YearDays(year) {
      YearOfSplits(days - YearDays(year), year + 1);
    }
  }

  lemma {:induction false} MonthOfSplits(year: nat, days: nat, month: nat)
    requires 1 <= month <= 12 && DaysToMonth(year, month) + days < YearDays(year)
    ensures var m := MonthOf(year, days, month);
            DaysToMonth(year, m) <= DaysToMonth(year, month) + days < DaysToMonth(year, m) + MonthDays(year, m)
    decreases 12 - month
  {
    if month == 12 {
      YearIsItsMonths(year);
    } else if days >= MonthDays(year, month) {
      MonthOfSplits(year, days - MonthDays(year, month), month + 1);
    }
  }

  function DateOf(days: nat): Date {
    var year := YearOf(days, EPOCH);
    var left := days - DaysTo(year);
    if left < 0 then Date(year, 1, 1)
    else
      var month := MonthOf(year, left, 1);
      var day := left - DaysToMonth(year, month);
      Date(year, month, if day < 0 then 1 else day + 1)
  }

  /** Every day number is that of its date. */
  lemma DateOfRoundTrip(days: nat)
    ensures Valid(DateOf(days)) && DayNumber(DateOf(days)) == days
  {
    YearOfSplits(days, EPOCH);
    var year := YearOf(days, EPOCH);
    MonthOfSplits(year, days - DaysTo(year), 1);
  }

  // ---------------------------------------------------------------- the clock

  datatype Clock = Clock(hour: nat, minute: nat, half: nat)

  function ClockOf(s: nat): Clock { Clock(s / 3600, s / 60 % 60, s % 60 / 2) }

  function PackClock(c: Clock): nat { c.hour * 2048 + c.minute * 32 + c.half }

  function UnpackClock(time: nat): Clock { Clock(time / 2048, time / 32 % 64, time % 32) }

  function Seconds(c: Clock): nat { c.hour * 3600 + c.minute * 60 + c.half * 2 }

  predicate OnTheClock(c: Clock) {
    c.hour < 24 && c.minute < 60 && c.half < 30
  }

  lemma ClockParts(s: nat)
    requires s < DAY_SECONDS
    ensures OnTheClock(ClockOf(s)) && Seconds(ClockOf(s)) == s - s % 2
  {
    var q, r := s / 60, s % 60;
    assert s / 3600 == q / 60;
    assert s == q / 60 * 3600 + q % 60 * 60 + r;
    assert s % 2 == r % 2;
  }

  /** `hi` and `lo` are read back from `hi * k + lo`. */
  lemma Fields(hi: nat, lo: nat, k: nat)
    requires lo < k && k in {32, 64}
    ensures (hi * k + lo) / k == hi && (hi * k + lo) % k == lo
  {
    if k == 32 {
      assert (hi * 32 + lo) / 32 == hi;
    } else {
      assert (hi * 64 + lo) / 64 == hi;
    }
  }

  lemma ClockRoundTrip(c: Clock)
    requires OnTheClock(c)
    ensures PackClock(c) < 0x1_0000 && UnpackClock(PackClock(c)) == c
  {
    var time, upper := PackClock(c), c.hour * 64 + c.minute;
    assert time == upper * 32 + c.half;
    Fields(upper, c.half, 32);
    Fields(c.hour, c.minute, 64);
    assert time / 2048 == upper / 64;
  }

  lemma ClockOrder(a: Clock, b: Clock)
    requires OnTheClock(a) && OnTheClock(b) && Seconds(a) <= Seconds(b)
    ensures PackClock(a) <= PackClock(b)
  {
    if a.hour < b.hour {
    } else if a.hour > b.hour {
    } else if a.minute < b.minute {
    } else if a.minute > b.minute {
    }
  }

  // ---------------------------------------------------------------- the packed form

  /** The value of `unix_to_dos`: date in the high half, time in the low one. */
  function ToDos(t: Word): int {
    var d := DateOf(t / DAY_SECONDS);
    var date := if d.year < DOS_EPOCH then 0x21 else PackDate(d) % 0x1_0000;
    date * 0x1_0000 + PackClock(ClockOf(t % DAY_SECONDS))
  }

  function UnpackDate(date: nat): Date {
    Date(DOS_EPOCH + date / 512, date / 32 % 16, date % 32)
  }

  /** A packed value read as DOS does. */
  function FromDos(packed: nat): Option<nat> {
    var d := UnpackDate(packed / 0x1_0000);
    if !Valid(d) then None
    else Some(DayNumber(d) * DAY_SECONDS + Seconds(UnpackClock(packed % 0x1_0000)))
  }

  lemma DosStartDay()
    ensures DOS_START == 3652 * DAY_SECONDS && DaysTo(DOS_EPOCH) == 3652
  {
    assert DaysTo(1972) == 730 && DaysTo(1974) == 1461 && DaysTo(1976) == 2191 && DaysTo(1978) == 2922;
  }

  /** Every 32-bit time falls in the years 1970 to 2106. */
  lemma YearRange(t: Word)
    ensures EPOCH <= DateOf(t / DAY_SECONDS).year <= 2106
    ensures t >= DOS_START <==> DateOf(t / DAY_SECONDS).year >= DOS_EPOCH
  {
    hide DaysTo, DaysToMonth, DateOf;
    var d := DateOf(t / DAY_SECONDS);
    DateOfRoundTrip(t / DAY_SECONDS);
    DaysToBound(d.year);
    DosStartDay();
    if d.year < DOS_EPOCH {
      LaterYear(d.year, DOS_EPOCH);
      YearIsItsMonths(d.year);
      LaterMonth(d.year, d.month, 13);
    } else if d.year > DOS_EPOCH {
      LaterYear(DOS_EPOCH, d.year);
    }
  }

  lemma DateFields(d: Date)
    requires Valid(d) && DOS_EPOCH <= d.year <= 2106
    ensures 0 <= PackDate(d) < 0x1_0000 && UnpackDate(PackDate(d)) == d
  {
    var p := PackDate(d);
    assert p / 512 == d.year - DOS_EPOCH;
    assert p / 32 == (d.year - DOS_EPOCH) * 16 + d.month;
  }

  lemma PackDateInjective(a: Date, b: Date)
    requires Valid(a) && DOS_EPOCH <= a.year <= 2106 && Valid(b) && DOS_EPOCH <= b.year <= 2106
    ensures PackDate(a) == PackDate(b) ==> a == b
  {
    DateFields(a);
    DateFields(b);
  }

  lemma Halves(hi: nat, lo: nat)
    requires hi < 0x1_0000 && lo < 0x1_0000
    ensures (hi * 0x1_0000 + lo) / 0x1_0000 == hi && (hi * 0x1_0000 + lo) % 0x1_0000 == lo
    ensures hi * 0x1_0000 + lo < 0x1_0000_0000
  {
  }

  /** From 1980 on, reading the packed form back gives the time rounded down to an even
      second. */
  lemma DosRoundTrip(t: Word)
    requires t >= DOS_START
    ensures 0 <= ToDos(t) < 0x1_0000_0000 && FromDos(ToDos(t)) == Some(t - t % 2)
  {
    hide DateOf, PackDate, UnpackDate, PackClock, UnpackClock, ClockOf, Seconds, DayNumber, Valid;
    var days, s := t / DAY_SECONDS, t % DAY_SECONDS;
    var d := DateOf(days);
    DateOfRoundTrip(days);
    YearRange(t);
    DateFields(d);
    ClockParts(s);
    ClockRoundTrip(ClockOf(s));
    Halves(PackDate(d), PackClock(ClockOf(s)));
    assert t % 2 == s % 2;
  }

  /** Packed values are in the order of the times they stand for. */
  lemma DosIsMonotone(t: Word, u: Word)
    requires DOS_START <= t <= u
    ensures ToDos(t) <= ToDos(u)
  {
    hide DateOf, PackDate, UnpackDate, PackClock, ClockOf, Seconds, DayNumber, Valid;
    DateOfRoundTrip(t / DAY_SECONDS);
    DateOfRoundTrip(u / DAY_SECONDS);
    YearRange(t);
    YearRange(u);
    DateFields(DateOf(t / DAY_SECONDS));
    DateFields(DateOf(u / DAY_SECONDS));
    ClockParts(t % DAY_SECONDS);
    ClockParts(u % DAY_SECONDS);
    ClockRoundTrip(ClockOf(t % DAY_SECONDS));
    ClockRoundTrip(ClockOf(u % DAY_SECONDS));
    DayOrder(DateOf(t / DAY_SECONDS), DateOf(u / DAY_SECONDS));
    if t / DAY_SECONDS == u / DAY_SECONDS {
      ClockOrder(ClockOf(t % DAY_SECONDS), ClockOf(u % DAY_SECONDS));
    } else {
      PackDateInjective(DateOf(t / DAY_SECONDS), DateOf(u / DAY_SECONDS));
    }
  }

  lemma DateIs(days: nat, d: Date)
    requires Valid(d) && CivilDay(d.year, d.month, d.day) == days
    ensures DateOf(days) == d
  {
    DateOfRoundTrip(days);
    DayNumberIsCivil(d);
    DayOrder(DateOf(days), d);
  }

  lemma TimeIs(days: nat, s: nat, d: Date)
    requires Valid(d) && CivilDay(d.year, d.month, d.day) == days && s < DAY_SECONDS && days * DAY_SECONDS + s < 0x1_0000_0000
    ensures ToDos(days * DAY_SECONDS + s)
            == (if d.year < 1980 then 0x21 else PackDate(d) % 0x1_0000) * 0x1_0000 + PackClock(ClockOf(s))
  {
    hide DateOf, DayNumber, PackDate, PackClock, ClockOf, CivilDay;
    DateIs(days, d);
    var t := days * DAY_SECONDS + s;
    assert t / DAY_SECONDS == days && t % DAY_SECONDS == s;
  }

  lemma KnownDays()
    ensures CivilDay(2024, 3, 31) == 19813 && CivilDay(2000, 2, 29) == 11016 && CivilDay(1970, 1, 1) == 0
    ensures Valid(Date(2024, 3, 31)) && Valid(Date(2000, 2, 29)) && Valid(Date(1970, 1, 1))
  {
  }

  lemma ClockIs(hour: nat, minute: nat, second: nat)
    requires hour < 24 && minute < 60 && second < 60
    ensures ClockOf(hour * 3600 + minute * 60 + second) == Clock(hour, minute, second / 2)
  {
    var s := hour * 3600 + minute * 60 + second;
    assert s / 60 == hour * 60 + minute && s % 60 == second;
    assert s / 3600 == hour;
  }

  lemma KnownFields()
    ensures PackDate(Date(2024, 3, 31)) == 0x587F && PackDate(Date(2000, 2, 29)) == 0x285D
    ensures PackClock(ClockOf(48658)) == 0x6BDD && PackClock(ClockOf(0)) == 0 && PackClock(ClockOf(86399)) == 0xBF7D
  {
    hide ClockOf;
    ClockIs(13, 30, 58);
    ClockIs(0, 0, 0);
    ClockIs(23, 59, 59);
  }

  /** 13:30:58 on 31 March 2024, and 29 February 2000; times before 1980 keep their clock under
      the first date that DOS knows. */
  lemma KnownTimes()
    ensures ToDos(1711891858) == 0x587F_6BDD
    ensures ToDos(951782400) == 0x285D_0000
    ensures ToDos(86399) == 0x0021_BF7D
  {
    hide ToDos, CivilDay, Valid, PackDate, PackClock, ClockOf;
    KnownDays();
    KnownFields();
    TimeIs(19813, 48658, Date(2024, 3, 31));
    TimeIs(11016, 0, Date(2000, 2, 29));
    TimeIs(0, 86399, Date(1970, 1, 1));
  }

  // ---------------------------------------------------------------- the code

  /** The year loop, with its 200-year guard. For every 32-bit time the guard never fires. */
  method SplitYears(all: nat) returns (year: nat, left: nat, iters: nat)
    requires all <= 0xFFFF_FFFF / DAY_SECONDS
    ensures year == YearOf(all, EPOCH) && year >= EPOCH && left == all - DaysTo(year) < YearDays(year)
    ensures iters == year - EPOCH <= 136
  {
    hide DaysTo;
    FirstDays();
    left, year, iters := all, EPOCH, 0;
    while true
      invariant year >= EPOCH && iters == year - EPOCH <= 136 && left + DaysTo(year) == all
      invariant YearOf(all, EPOCH) == YearOf(left, year)
      decreases left
    {
      var yd := if Leap(year) then 366 else 365;
      if left < yd { break; }
      NextYear(year);
      DaysToBound(year + 1);
      left := left - yd;
      year := year + 1;
      iters := iters + 1;
      if iters > 200 { break; }
    }
  }

  /** The month loop: its index stays in the table. */
  method SplitMonths(year: nat, left: nat) returns (month: nat, day: nat)
    requires left < YearDays(year)
    ensures 1 <= month <= 12 && month == MonthOf(year, left, 1) && day == left - DaysToMonth(year, month) + 1 >= 1
  {
    hide DaysToMonth, Leap, YearDays;
    FirstMonth(year);
    var days: nat := left;
    month := 1;
    while true
      invariant 1 <= month <= 12 && days + DaysToMonth(year, month) == left
      invariant MonthOf(year, left, 1) == MonthOf(year, days, month)
      decreases 12 - month
    {
      var md := MONTH_DAYS[month - 1];
      if month == 2 && Leap(year) { md := 29; }
      if days < md { break; }
      NextMonth(year, month);
      YearIsItsMonths(year);
      days := days - md;
      month := month + 1;
    }
    day := days + 1;
  }

  /** The conversion. `iters` counts the turns of the year loop. */
  method UnixToDos(t: Word) returns (packed: int, iters: nat)
    ensures packed == ToDos(t)
    ensures iters <= 136
  {
    hide DaysTo, DaysToMonth, YearOf, MonthOf;
    var s := t % DAY_SECONDS;
    var year, left, turns := SplitYears(t / DAY_SECONDS);
    var month, day := SplitMonths(year, left);
    iters := turns;
    var date := if year < DOS_EPOCH then 0x21 else ((year - DOS_EPOCH) * 512 + month * 32 + day) % 0x1_0000;
    packed := date * 0x1_0000 + (s / 3600 * 2048 + s / 60 % 60 * 32 + s % 60 / 2);
  }

  lemma FirstDays()
    ensures DaysTo(EPOCH) == 0
  {
  }

  lemma FirstMonth(year: nat)
    ensures DaysToMonth(year, 1) == 0
  {
  }

  lemma NextYear(year: nat)
    requires year >= EPOCH
    ensures DaysTo(year + 1) == DaysTo(year) + YearDays(year)
  {
  }

  lemma NextMonth(year: nat, month: nat)
    requires 1 <= month <= 12
    ensures DaysToMonth(year, month + 1) == DaysToMonth(year, month) + MonthDays(year, month)
  {
  }
}
