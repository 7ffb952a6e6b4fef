/** Calendar arithmetic on days since 1970-01-01 (src/time_utils.rs), against the
    Gregorian calendar counted day by day. Years are unbounded. */
module Calendar {
  datatype Date = Date(year: int, month: int, day: int)

  // ---- The Gregorian calendar ---------------------------------------------

  predicate Leap(year: int)
  {
    year % 4 == 0 && (year % 100 != 0 || year % 400 == 0)
  }

  function MonthLength(year: int, month: int): int
    requires 1 <= month <= 12
  {
    if month == 2 then (if Leap(year) then 29 else 28)
    else if month in {4, 6, 9, 11} then 30
    else 31
  }

  predicate Valid(d: Date)
  {
    1 <= d.month <= 12 && 1 <= d.day <= MonthLength(d.year, d.month)
  }

  predicate LeapDay(d: Date)
  {
    d.month == 2 && d.day == 29
  }

  function Tomorrow(d: Date): (r: Date)
    requires Valid(d)
    ensures Valid(r)
  {
    if d.day < MonthLength(d.year, d.month) then Date(d.year, d.month, d.day + 1)
    else if d.month < 12 then Date(d.year, d.month + 1, 1)
    else Date(d.year + 1, 1, 1)
  }

  // ---- The two conversions -------------------------------------------------

  /** The year, counted from 1 March, and the month in it. */
  function MarchYear(d: Date): int
  {
    if d.month <= 2 then d.year - 1 else d.year
  }

  function DayOfYear(d: Date): int
  {
    (153 * (if d.month <= 2 then d.month + 9 else d.month - 3) + 2) / 5 + d.day - 1
  }

  /** Days before year `yoe` of a 400-year era. */
  function YearStart(yoe: int): int
  {
    yoe * 365 + yoe / 4 - yoe / 100
  }

  /** `calendar_to_days`. */
  function CalendarToDays(d: Date): int
    requires 1 <= d.month <= 12
  {
    var y := MarchYear(d);
    (y / 400) * 146097 + YearStart(y % 400) + DayOfYear(d) - 719468
  }

  /** The year of the era that holds day `doe` of it, with the divisor the source
      uses (1461) or the published one (1460). */
  function YearOfEra(doe: int, divisor: int): int
    requires divisor > 0
  {
    (doe - doe / divisor + doe / 36524 - doe / 146096) / 365
  }

  /** A conversion back to a date, or the unsigned subtraction of a larger number
      from a smaller one. */
  datatype Outcome = Ok(date: Date) | Underflow

  /** Month and day from the day of the year that begins on 1 March. */
  function FromDayOfYear(y: int, doy: int): Date
  {
    var mp := (5 * doy + 2) / 153;
    var month := if mp < 10 then mp + 3 else mp - 9;
    Date(if month <= 2 then y + 1 else y, month, doy - (153 * mp + 2) / 5 + 1)
  }

  /** Day `doe` of era `era`. */
  function FromEra(era: int, doe: int, divisor: int): Outcome
    requires divisor > 0
  {
    var yoe := YearOfEra(doe, divisor);
    if doe < YearStart(yoe) then Underflow
    else Ok(FromDayOfYear(yoe + era * 400, doe - YearStart(yoe)))
  }

  /** `epoch_secs_to_calendar` on whole days. */
  function DaysToCalendar(days: int, divisor: int): Outcome
    requires divisor > 0
  {
    var z := days + 719468;
    FromEra(z / 146097, z % 146097, divisor)
  }

  // ---- calendar_to_days counts days ----------------------------------------

  /** A year by century of its era, leap cycle of its century, year of its cycle. */
  lemma Split(y: int) returns (e: int, c: int, q: int, r: int)
    ensures y == 400 * e + 100 * c + 4 * q + r && 0 <= c <= 3 && 0 <= q <= 24 && 0 <= r <= 3
    ensures y / 400 == e && y % 400 == 100 * c + 4 * q + r
    ensures (y % 400) / 4 == 25 * c + q && (y % 400) / 100 == c
  {
    e := y / 400;
    var yoe := y % 400;
    c := yoe / 100;
    q := (yoe % 100) / 4;
    r := yoe % 4;
  }

  /** Quotient and remainder are unique. */
  lemma DivUnique(x: int, m: int, k: int, r: int)
    requires m > 0 && x == m * k + r && 0 <= r < m
    ensures x / m == k && x % m == r
  {
    var d := k - x / m;
    assert x == m * (x / m) + x % m;
    assert m * d == x % m - r;
    assert d >= 1 ==> m * d >= m;
    assert d <= -1 ==> m * d <= -m;
  }

  lemma LeapSplit(y: int, e: int, c: int, q: int, r: int)
    requires y == 400 * e + 100 * c + 4 * q + r && 0 <= c <= 3 && 0 <= q <= 24 && 0 <= r <= 3
    ensures Leap(y + 1) <==> r == 3 && (q == 24 ==> c == 3)
    ensures (y + 1) % 400 == 0 <==> r == 3 && q == 24 && c == 3
  {
    if r < 3 {
      DivUnique(y + 1, 4, 100 * e + 25 * c + q, r + 1);
      DivUnique(y + 1, 400, e, 100 * c + 4 * q + r + 1);
    } else if q < 24 {
      DivUnique(y + 1, 4, 100 * e + 25 * c + q + 1, 0);
      DivUnique(y + 1, 100, 4 * e + c, 4 * q + 4);
      DivUnique(y + 1, 400, e, 100 * c + 4 * q + 4);
    } else {
      DivUnique(y + 1, 4, 100 * e + 25 * c + 25, 0);
      DivUnique(y + 1, 100, 4 * e + c + 1, 0);
      DivUnique(y + 1, 400, if c < 3 then e else e + 1, if c < 3 then 100 * c + 100 else 0);
    }
  }

  /** Days before 1 March of year `y`, from 1 March of year 0. */
  function EraStart(y: int): int
  {
    (y / 400) * 146097 + YearStart(y % 400)
  }

  lemma EraStartSplit(y: int, e: int, c: int, q: int, r: int)
    requires y == 400 * e + 100 * c + 4 * q + r && 0 <= c <= 3 && 0 <= q <= 24 && 0 <= r <= 3
    ensures EraStart(y) == 146097 * e + 36524 * c + 1461 * q + 365 * r
  {
    var e', c', q', r' := Split(y);
    assert e == e' && c == c' && q == q' && r == r';
  }

  lemma YearLength(y: int)
    ensures EraStart(y + 1) == EraStart(y) + (if Leap(y + 1) then 366 else 365)
  {
    var e, c, q, r := Split(y);
    EraStartSplit(y, e, c, q, r);
    LeapSplit(y, e, c, q, r);
    if r < 3 {
      EraStartSplit(y + 1, e, c, q, r + 1);
    } else if q < 24 {
      EraStartSplit(y + 1, e, c, q + 1, 0);
    } else if c < 3 {
      EraStartSplit(y + 1, e, c + 1, 0, 0);
    } else {
      EraStartSplit(y + 1, e + 1, 0, 0, 0);
    }
  }

  /** One more for the successor of every valid date. */
  lemma DayAfterDay(d: Date)
    requires Valid(d)
    ensures CalendarToDays(Tomorrow(d)) == CalendarToDays(d) + 1
  {
    YearLength(MarchYear(d));
    DayOfYearSteps(d);
  }

  lemma DayOfYearSteps(d: Date)
    requires Valid(d)
    ensures if d.month == 2 && d.day == MonthLength(d.year, 2)
            then MarchYear(Tomorrow(d)) == MarchYear(d) + 1 == d.year && DayOfYear(Tomorrow(d)) == 0
                 && DayOfYear(d) == (if Leap(d.year) then 365 else 364)
            else MarchYear(Tomorrow(d)) == MarchYear(d) && DayOfYear(Tomorrow(d)) == DayOfYear(d) + 1
  {
  }

  // ---- The inverse -----------------------------------------------------------

  /** Day `doy` of year `y`: the 366th only when the year ends in a leap day. */
  predicate InYear(y: int, doy: int)
  {
    0 <= doy <= 365 && (doy == 365 ==> Leap(y + 1))
  }

  /** Day `doy` of the year split as (c, q, r), within its era. */
  function DayOfEra(c: int, q: int, r: int, doy: int): int
  {
    36524 * c + 1461 * q + 365 * r + doy
  }

  lemma CenturyTerm(c: int, q: int, r: int, doy: int)
    requires 0 <= c <= 3 && 0 <= q <= 24 && 0 <= r <= 3 && 0 <= doy <= 365
    requires doy == 365 ==> r == 3 && (q == 24 ==> c == 3)
    ensures var doe := DayOfEra(c, q, r, doy);
            0 <= doe <= 146096 && doe / 36524 - doe / 146096 == c
  {
    var doe, rest := DayOfEra(c, q, r, doy), 1461 * q + 365 * r + doy;
    assert rest <= 36524;
    if rest == 36524 {
      assert q == 24 && r == 3 && doy == 365 && c == 3 && doe == 146096;
    } else {
      assert doe / 36524 == c;
      assert doe < 146096;
    }
  }

  /** The published divisor finds the year of every day. */
  lemma YearOfEra1460(c: int, q: int, r: int, doy: int)
    requires 0 <= c <= 3 && 0 <= q <= 24 && 0 <= r <= 3 && 0 <= doy <= 365
    requires doy == 365 ==> r == 3 && (q == 24 ==> c == 3)
    ensures YearOfEra(DayOfEra(c, q, r, doy), 1460) == 100 * c + 4 * q + r
  {
    CenturyTerm(c, q, r, doy);
    var doe, u := DayOfEra(c, q, r, doy), 24 * c + q + 365 * r + doy;
    assert doe == 1460 * (25 * c + q) + u;
    var extra := if u >= 1460 then 1 else 0;
    assert doe / 1460 == 25 * c + q + extra;
    assert doe - doe / 1460 + c == 365 * (100 * c + 4 * q + r) + (doy - extra);
  }

  /** The source's divisor finds the year of every day except the 366th of a
      year, for which it is one too large. */
  lemma YearOfEra1461(c: int, q: int, r: int, doy: int)
    requires 0 <= c <= 3 && 0 <= q <= 24 && 0 <= r <= 3 && 0 <= doy <= 365
    requires doy == 365 ==> r == 3 && (q == 24 ==> c == 3)
    ensures YearOfEra(DayOfEra(c, q, r, doy), 1461) == 100 * c + 4 * q + r + (if doy == 365 then 1 else 0)
  {
    CenturyTerm(c, q, r, doy);
    var doe, v := DayOfEra(c, q, r, doy), 365 * r + doy - c;
    assert doe == 1461 * (25 * c + q) + v;
    var short := if v < 0 then 1 else 0;
    assert doe / 1461 == 25 * c + q - short;
    assert doe - doe / 1461 + c == 365 * (100 * c + 4 * q + r) + (doy + short);
  }

  lemma MonthInverse(d: Date)
    requires Valid(d)
    ensures FromDayOfYear(MarchYear(d), DayOfYear(d)) == d
    ensures InYear(MarchYear(d), DayOfYear(d))
    ensures DayOfYear(d) == 365 <==> LeapDay(d)
  {
  }

  lemma MonthForward(y: int, doy: int)
    requires InYear(y, doy)
    ensures var d := FromDayOfYear(y, doy);
            Valid(d) && MarchYear(d) == y && DayOfYear(d) == doy
  {
    var mp := (5 * doy + 2) / 153;
    assert 0 <= mp <= 11;
  }

  lemma EraOf(days: int, era: int, doe: int, divisor: int)
    requires divisor > 0 && days + 719468 == 146097 * era + doe && 0 <= doe <= 146096
    ensures DaysToCalendar(days, divisor) == FromEra(era, doe, divisor)
  {
    DivUnique(days + 719468, 146097, era, doe);
  }

  lemma YearStartSplit(c: int, q: int, r: int)
    requires 0 <= c <= 3 && 0 <= q <= 24 && 0 <= r <= 3
    ensures YearStart(100 * c + 4 * q + r) == 36524 * c + 1461 * q + 365 * r
  {
    var yoe := 100 * c + 4 * q + r;
    assert yoe / 4 == 25 * c + q && yoe / 100 == c;
  }

  /** Both conversions of day `doy` of year `y`. */
  lemma BackFromYear(y: int, doy: int)
    requires InYear(y, doy)
    ensures DaysToCalendar(EraStart(y) + doy - 719468, 1460) == Ok(FromDayOfYear(y, doy))
    ensures DaysToCalendar(EraStart(y) + doy - 719468, 1461) ==
            if doy < 365 then Ok(FromDayOfYear(y, doy))
            else if (y + 1) % 400 == 0 then Ok(Date(y + 1, 3, 1))
            else Underflow
  {
    var e, c, q, r := Split(y);
    EraStartSplit(y, e, c, q, r);
    LeapSplit(y, e, c, q, r);
    CenturyTerm(c, q, r, doy);
    var days, doe := EraStart(y) + doy - 719468, DayOfEra(c, q, r, doy);
    EraOf(days, e, doe, 1460);
    EraOf(days, e, doe, 1461);
    InEra1460(y, e, c, q, r, doy);
    InEra1461(y, e, c, q, r, doy);
  }

  lemma InEra1460(y: int, e: int, c: int, q: int, r: int, doy: int)
    requires y == 400 * e + 100 * c + 4 * q + r && 0 <= c <= 3 && 0 <= q <= 24 && 0 <= r <= 3
    requires 0 <= doy <= 365 && (doy == 365 ==> r == 3 && (q == 24 ==> c == 3))
    ensures FromEra(e, DayOfEra(c, q, r, doy), 1460) == Ok(FromDayOfYear(y, doy))
  {
    YearOfEra1460(c, q, r, doy);
    YearStartSplit(c, q, r);
  }

  lemma InEra1461(y: int, e: int, c: int, q: int, r: int, doy: int)
    requires y == 400 * e + 100 * c + 4 * q + r && 0 <= c <= 3 && 0 <= q <= 24 && 0 <= r <= 3
    requires 0 <= doy <= 365 && (doy == 365 ==> r == 3 && (q == 24 ==> c == 3))
    ensures FromEra(e, DayOfEra(c, q, r, doy), 1461) ==
            if doy < 365 then Ok(FromDayOfYear(y, doy))
            else if (y + 1) % 400 == 0 then Ok(Date(y + 1, 3, 1))
            else Underflow
  {
    YearOfEra1461(c, q, r, doy);
    YearStartSplit(c, q, r);
    if doy == 365 {
      NextYearStart(c, q, r);
      EraEnds(y, e, c, q, r);
    }
  }

  lemma EraEnds(y: int, e: int, c: int, q: int, r: int)
    requires y == 400 * e + 100 * c + 4 * q + r && 0 <= c <= 3 && 0 <= q <= 24 && r == 3
    ensures (y + 1) % 400 == 0 <==> c == 3 && q == 24
    ensures FromDayOfYear(y + 1, 0) == Date(y + 1, 3, 1)
  {
    LeapSplit(y, e, c, q, r);
  }

  /** The year after a leap day's starts one past it, or with the next era. */
  lemma NextYearStart(c: int, q: int, r: int)
    requires 0 <= c <= 3 && 0 <= q <= 24 && r == 3 && (q == 24 ==> c == 3)
    ensures YearStart(100 * c + 4 * q + r + 1) ==
            DayOfEra(c, q, r, 365) + (if q == 24 then 0 else 1)
  {
  }

  /** `epoch_secs_to_calendar` undoes `calendar_to_days` exactly off 29 February.
      On a 29 February it subtracts below zero, or, at the end of a 400-year era,
      gives 1 March. With the published divisor it undoes it on every date. */
  lemma DateRoundTrip(d: Date)
    requires Valid(d)
    ensures DaysToCalendar(CalendarToDays(d), 1461) == Ok(d) <==> !LeapDay(d)
    ensures LeapDay(d) ==>
              DaysToCalendar(CalendarToDays(d), 1461) ==
              if d.year % 400 == 0 then Ok(Date(d.year, 3, 1)) else Underflow
    ensures DaysToCalendar(CalendarToDays(d), 1460) == Ok(d)
  {
    MonthInverse(d);
    BackFromYear(MarchYear(d), DayOfYear(d));
    assert CalendarToDays(d) == EraStart(MarchYear(d)) + DayOfYear(d) - 719468;
  }

  const TWO64: int := 0x1_0000_0000_0000_0000
  const TWO32: int := 0x1_0000_0000

  predicate FitsI32(n: int)
  {
    -0x8000_0000 <= n < 0x8000_0000
  }

  /** The `i32` that a wrapping computation leaves. */
  function WrapI32(n: int): (r: int)
    ensures FitsI32(r) && (FitsI32(n) <==> r == n)
  {
    (n + 0x8000_0000) % TWO32 - 0x8000_0000
  }

  /** The conversion as it runs without overflow checks: the year in wrapping `i32`,
      the day of the year in wrapping `u64`, month and day cut to `u8`. */
  function DaysToCalendarWrapping(days: int): Date
  {
    var z := days + 719468;
    WrappingFromEra(z / 146097, z % 146097)
  }

  function WrappingFromEra(era: int, doe: int): Date
  {
    var yoe := YearOfEra(doe, 1461);
    var y := WrapI32(WrapI32(yoe) + WrapI32(WrapI32(era) * 400));
    WrappingFromDayOfYear(y, doe - YearStart(yoe))
  }

  function WrappingFromDayOfYear(y: int, difference: int): Date
  {
    var doy := difference % TWO64;
    var mp := ((5 * doy + 2) % TWO64) / 153;
    var month := if mp < 10 then mp + 3 else (mp % 256 - 9) % 256;
    var day := ((doy - (153 * mp + 2) / 5 + 1) % TWO64) % 256;
    Date(if month <= 2 then WrapI32(y + 1) else y, month, day)
  }

  /** Wrapping forgets multiples of 2^32. */
  lemma WrapForgets(n: int, k: int)
    ensures WrapI32(n + k * TWO32) == WrapI32(n)
  {
    var m := n + 0x8000_0000;
    DivUnique(m + k * TWO32, TWO32, m / TWO32 + k, m % TWO32);
  }

  lemma WrapDiffers(n: int) returns (k: int)
    ensures WrapI32(n) == n + k * TWO32
  {
    k := -((n + 0x8000_0000) / TWO32);
  }

  lemma WrapsAlike(n: int, m: int, k: int)
    requires n == m + k * TWO32
    ensures WrapI32(n) == WrapI32(m)
  {
    WrapForgets(m, k);
  }

  /** Wrapping at every step is wrapping at the end. */
  lemma YearWraps(yoe: int, era: int)
    ensures WrapI32(WrapI32(yoe) + WrapI32(WrapI32(era) * 400)) == WrapI32(yoe + era * 400)
  {
    var a := WrapDiffers(yoe);
    var b := WrapDiffers(era);
    var c := WrapDiffers(WrapI32(era) * 400);
    WrapsAlike(WrapI32(yoe) + WrapI32(WrapI32(era) * 400), yoe + era * 400, a + b * 400 + c);
  }

  lemma NextYearWraps(y: int)
    ensures WrapI32(WrapI32(y) + 1) == WrapI32(y + 1)
  {
    var k := WrapDiffers(y);
    WrapsAlike(WrapI32(y) + 1, y + 1, k);
  }

  lemma MinusOneWraps(y: int)
    ensures WrappingFromDayOfYear(y, -1) == Date(y, 163, 215)
  {
    var doy := TWO64 - 1;
    assert -1 % TWO64 == doy;
    var mp := 120566954730127788;
    assert (5 * doy + 2) % TWO64 == TWO64 - 3;
    assert (TWO64 - 3) / 153 == mp;
  }

  /** Without overflow checks every 29 February but the last of an era becomes day
      215 of month 163 of its year. */
  lemma LeapDayWraps(d: Date)
    requires Valid(d) && LeapDay(d) && d.year % 400 != 0
    ensures DaysToCalendarWrapping(CalendarToDays(d)) == Date(WrapI32(d.year), 163, 215)
  {
    var y := MarchYear(d);
    var e, c, q, r := Split(y);
    LeapSplit(y, e, c, q, r);
    EraStartSplit(y, e, c, q, r);
    YearOfEra1461(c, q, r, 365);
    NextYearStart(c, q, r);
    MonthInverse(d);
    CenturyTerm(c, q, r, 365);
    DivUnique(CalendarToDays(d) + 719468, 146097, e, DayOfEra(c, q, r, 365));
    YearWraps(100 * c + 4 * q + r + 1, e);
    MinusOneWraps(WrapI32(y + 1));
    hide WrapI32, WrappingFromDayOfYear;
  }

  /** The year that holds day `z`, counted from 1 March of year 0. */
  lemma FindYear(z: int) returns (y: int, doy: int)
    ensures z == EraStart(y) + doy && InYear(y, doy)
  {
    var e, doe := z / 146097, z % 146097;
    var c := if doe == 146096 then 3 else doe / 36524;
    var rest := doe - 36524 * c;
    var q := rest / 1461;
    var rest4 := rest - 1461 * q;
    var r := if rest4 == 1460 then 3 else rest4 / 365;
    doy := rest4 - 365 * r;
    y := 400 * e + 100 * c + 4 * q + r;
    EraStartSplit(y, e, c, q, r);
    LeapSplit(y, e, c, q, r);
  }

  /** `calendar_to_days` undoes `epoch_secs_to_calendar` on every day number that
      is not a 29 February; the other way round, every day number is some date. */
  lemma DayRoundTrip(days: int)
    ensures DaysToCalendar(days, 1460).Ok?
    ensures var d := DaysToCalendar(days, 1460).date;
            && Valid(d) && CalendarToDays(d) == days
            && (DaysToCalendar(days, 1461) == Ok(d) <==> !LeapDay(d))
  {
    var y, doy := FindYear(days + 719468);
    BackFromYear(y, doy);
    MonthForward(y, doy);
    DateRoundTrip(FromDayOfYear(y, doy));
  }

  // ---- Counting day by day ---------------------------------------------------

  /** The date `n` days after `d`. */
  function Advance(d: Date, n: nat): (r: Date)
    requires Valid(d)
    ensures Valid(r)
    decreases n
  {
    if n == 0 then d else Tomorrow(Advance(d, n - 1))
  }

  lemma {:induction false} AdvanceCounts(d: Date, n: nat)
    requires Valid(d)
    ensures CalendarToDays(Advance(d, n)) == CalendarToDays(d) + n
    decreases n
  {
    if n > 0 {
      AdvanceCounts(d, n - 1);
      DayAfterDay(Advance(d, n - 1));
    }
  }

  lemma SameDaySameDate(a: Date, b: Date)
    requires Valid(a) && Valid(b) && CalendarToDays(a) == CalendarToDays(b)
    ensures a == b
  {
    DateRoundTrip(a);
    DateRoundTrip(b);
  }

  /** Two dates lie `n` days apart by `calendar_to_days` exactly when the calendar,
      followed day by day, leads from one to the other in `n` days: for all valid
      dates of all years. */
  lemma DaysAreCounted(from: Date, to: Date, n: nat)
    requires Valid(from) && Valid(to)
    ensures CalendarToDays(to) == CalendarToDays(from) + n <==> Advance(from, n) == to
  {
    AdvanceCounts(from, n);
    var there := Advance(from, n);
    if there != to && CalendarToDays(to) == CalendarToDays(there) {
      SameDaySameDate(there, to);
    }
  }

  lemma Epoch()
    ensures CalendarToDays(Date(1970, 1, 1)) == 0
  {
  }

  /** The count starts on 1970-01-01. */
  lemma EpochIsDayZero(to: Date, n: nat)
    requires Valid(to)
    ensures CalendarToDays(to) == n <==> Advance(Date(1970, 1, 1), n) == to
  {
    Epoch();
    DaysAreCounted(Date(1970, 1, 1), to, n);
  }

  // ---- Order -------------------------------------------------------------------

  /** The order of dates. */
  predicate Before(a: Date, b: Date)
  {
    || a.year < b.year
    || (a.year == b.year && a.month < b.month)
    || (a.year == b.year && a.month == b.month && a.day < b.day)
  }

  lemma {:induction false} EraStartGrows(y: int, z: int)
    requires y < z
    ensures EraStart(y) + (if Leap(y + 1) then 366 else 365) <= EraStart(z)
    decreases z - y
  {
    YearLength(y);
    if y + 1 < z {
      EraStartGrows(y + 1, z);
    }
  }

  lemma DaysGrow(a: Date, b: Date)
    requires Valid(a) && Valid(b) && Before(a, b)
    ensures CalendarToDays(a) < CalendarToDays(b)
  {
    var y, z := MarchYear(a), MarchYear(b);
    MonthInverse(a);
    MonthInverse(b);
    if y < z {
      EraStartGrows(y, z);
    } else {
      SameYearGrows(a, b);
    }
  }

  lemma SameYearGrows(a: Date, b: Date)
    requires Valid(a) && Valid(b) && Before(a, b)
    ensures MarchYear(a) <= MarchYear(b)
    ensures MarchYear(a) == MarchYear(b) ==> DayOfYear(a) < DayOfYear(b)
  {
  }

  /** Later dates have larger day numbers, and only they. */
  lemma DaysAreOrdered(a: Date, b: Date)
    requires Valid(a) && Valid(b)
    ensures CalendarToDays(a) < CalendarToDays(b) <==> Before(a, b)
  {
    if Before(a, b) {
      DaysGrow(a, b);
    } else if Before(b, a) {
      DaysGrow(b, a);
    } else {
      assert a == b;
    }
  }

  // ---- The year in 32 bits ------------------------------------------------------

  predicate FitsI64(n: int)
  {
    -0x8000_0000_0000_0000 <= n < 0x8000_0000_0000_0000
  }

  /** A date, or an arithmetic result that its type cannot hold. */
  datatype Checked = Exact(date: Date) | OutOfRange

  /** Day `doe` of era `era` in a build with overflow checks: the year is computed in
      `i32`, and a result that does not fit is none. */
  function CheckedFromEra(era: int, doe: int): Checked
  {
    var yoe := YearOfEra(doe, 1461);
    if !FitsI32(era * 400) || !FitsI32(yoe + era * 400) || doe < YearStart(yoe) then OutOfRange
    else
      var d := FromDayOfYear(yoe + era * 400, doe - YearStart(yoe));
      if FitsI32(d.year) then Exact(d) else OutOfRange
  }

  /** `epoch_secs_to_calendar` on whole days. */
  function CheckedCalendar(days: int): Checked
  {
    var z := days + 719468;
    CheckedFromEra(z / 146097, z % 146097)
  }

  /** The narrowing of the era to `i32` itself loses nothing. */
  lemma EraFits(secs: int)
    requires FitsI64(secs)
    ensures FitsI64(secs / 86400 + 719468) && FitsI32((secs / 86400 + 719468) / 146097)
  {
  }

  /** 1 March of the first era whose first year an `i32` holds, and the last day of the
      last year it holds. */
  const FIRST: Date := Date(-2147483600, 3, 1)
  const LAST: Date := Date(2147483647, 12, 31)

  lemma EraOfDate(d: Date)
    requires Valid(d)
    ensures (CalendarToDays(d) + 719468) / 146097 == MarchYear(d) / 400
  {
    var y := MarchYear(d);
    var r := YearStart(y % 400) + DayOfYear(d);
    assert 0 <= DayOfYear(d) <= 365;
    DivUnique(CalendarToDays(d) + 719468, 146097, y / 400, r);
  }

  lemma InRangeIff(d: Date)
    requires Valid(d)
    ensures CalendarToDays(FIRST) <= CalendarToDays(d) <==> MarchYear(d) >= -2147483600
    ensures CalendarToDays(d) <= CalendarToDays(LAST) <==> d.year <= 2147483647
  {
    DaysAreOrdered(d, FIRST);
    DaysAreOrdered(LAST, d);
  }

  /** Not for the full `i64` range: with overflow checks the result is the true date
      exactly off 29 February and from 1 March of year -2147483600 through 31 December 2147483647. */
  lemma CheckedIsExactIff(days: int)
    ensures DaysToCalendar(days, 1460).Ok?
    ensures var d := DaysToCalendar(days, 1460).date;
            && Valid(d) && CalendarToDays(d) == days
            && (CheckedCalendar(days) == Exact(d) <==>
                  !LeapDay(d) && CalendarToDays(FIRST) <= days <= CalendarToDays(LAST))
            && (!LeapDay(d) && CheckedCalendar(days) != Exact(d) ==> CheckedCalendar(days) == OutOfRange)
  {
    hide *;
    DayRoundTrip(days);
    var d := DaysToCalendar(days, 1460).date;
    var era, doe := CheckedOf(days, d);
    CheckedOnDate(d, era, doe);
  }

  predicate OfEra(d: Date, era: int)
  {
    MarchYear(d) / 400 == era
  }

  lemma CheckedOnDate(d: Date, era: int, doe: int)
    requires Valid(d) && OfEra(d, era)
    requires FromEra(era, doe, 1461) == Ok(d) <==> !LeapDay(d)
    ensures CheckedFromEra(era, doe) == Exact(d) <==>
              !LeapDay(d) && CalendarToDays(FIRST) <= CalendarToDays(d) <= CalendarToDays(LAST)
    ensures !LeapDay(d) && CheckedFromEra(era, doe) != Exact(d) ==> CheckedFromEra(era, doe) == OutOfRange
  {
    InRangeIff(d);
    YearsFit(d);
    CheckedByDate(era, doe, d);
    hide CheckedFromEra, FromEra, Valid, CalendarToDays, MarchYear, FitsI32, LeapDay;
  }

  lemma CheckedOf(days: int, d: Date) returns (era: int, doe: int)
    requires Valid(d) && CalendarToDays(d) == days
    ensures CheckedCalendar(days) == CheckedFromEra(era, doe)
    ensures DaysToCalendar(days, 1461) == FromEra(era, doe, 1461)
    ensures OfEra(d, era)
  {
    EraOfDate(d);
    era, doe := (days + 719468) / 146097, (days + 719468) % 146097;
    hide CheckedFromEra, FromEra, Valid, CalendarToDays, MarchYear;
  }

  lemma CheckedByDate(era: int, doe: int, d: Date)
    ensures CheckedFromEra(era, doe) == Exact(d) ==> FromEra(era, doe, 1461) == Ok(d)
    ensures FromEra(era, doe, 1461) == Ok(d) ==>
              CheckedFromEra(era, doe) ==
              if FitsI32(era * 400) && FitsI32(MarchYear(d)) && FitsI32(d.year) then Exact(d) else OutOfRange
  {
    var yoe := YearOfEra(doe, 1461);
    FromMarchYear(yoe + era * 400, doe - YearStart(yoe));
    hide YearOfEra, YearStart, FromDayOfYear, MarchYear, FitsI32;
  }

  lemma FromMarchYear(y: int, doy: int)
    ensures MarchYear(FromDayOfYear(y, doy)) == y
  {
  }

  lemma YearsFit(d: Date)
    requires Valid(d)
    ensures FitsI32((MarchYear(d) / 400) * 400) && FitsI32(MarchYear(d)) && FitsI32(d.year)
       <==> -2147483600 <= MarchYear(d) && d.year <= 2147483647
  {
  }

  /** Within a year, month and day are small. */
  lemma MonthIsSmall(doy: int)
    requires 0 <= doy <= 365
    ensures var mp := (5 * doy + 2) / 153;
            0 <= mp <= 11 && 1 <= doy - (153 * mp + 2) / 5 + 1 <= 31
  {
    var mp := (5 * doy + 2) / 153;
    assert 153 * mp <= 5 * doy + 2 < 153 * mp + 153;
    var m := (153 * mp + 2) / 5;
    assert 5 * m <= 153 * mp + 2 < 5 * m + 5;
  }

  lemma SmallMod(x: int, m: int)
    requires 0 <= x < m
    ensures x % m == x
  {
    DivUnique(x, m, 0, x);
  }

  lemma NothingWraps(y: int, doy: int)
    requires 0 <= doy <= 365
    ensures WrappingFromDayOfYear(WrapI32(y), doy) ==
            Date(WrapI32(FromDayOfYear(y, doy).year), FromDayOfYear(y, doy).month, FromDayOfYear(y, doy).day)
  {
    MonthIsSmall(doy);
    NextYearWraps(y);
    SmallMod(doy, TWO64);
    SmallMod(5 * doy + 2, TWO64);
    var mp := (5 * doy + 2) / 153;
    var day := doy - (153 * mp + 2) / 5 + 1;
    SmallMod(mp, 256);
    SmallMod(day, TWO64);
    SmallMod(day, 256);
    if mp >= 10 { SmallMod(mp - 9, 256); }
    hide WrapI32;
  }

  /** Off 29 February the code finds the year of the era and the day of the year. */
  lemma PartsAreFound(d: Date) returns (era: int, doe: int)
    requires Valid(d) && !LeapDay(d)
    ensures DaysToCalendarWrapping(CalendarToDays(d)) == WrappingFromEra(era, doe)
    ensures YearOfEra(doe, 1461) + era * 400 == MarchYear(d)
    ensures doe - YearStart(YearOfEra(doe, 1461)) == DayOfYear(d)
  {
    var days := CalendarToDays(d);
    DateRoundTrip(d);
    EraOfDate(d);
    era, doe := (days + 719468) / 146097, (days + 719468) % 146097;
    var yoe := YearOfEra(doe, 1461);
    FromMarchYear(yoe + era * 400, doe - YearStart(yoe));
    assert FromEra(era, doe, 1461) == Ok(d);
    hide WrappingFromEra, YearOfEra, FromDayOfYear, MarchYear, DayOfYear, Valid, LeapDay;
    YearOfEraOf(MarchYear(d), era, yoe);
    assert days + 719468 == era * 146097 + doe;
  }

  lemma YearOfEraOf(y: int, era: int, yoe: int)
    requires y == yoe + era * 400 && y / 400 == era
    ensures yoe == y % 400
  {
  }

  lemma DayOfYearIsSmall(d: Date)
    requires Valid(d)
    ensures 0 <= DayOfYear(d) <= 365 && FromDayOfYear(MarchYear(d), DayOfYear(d)) == d
  {
    MonthInverse(d);
  }

  /** Off 29 February a build without overflow checks gives the true month and day,
      and the year cut to `i32`. */
  lemma WrappingKeeps(d: Date)
    requires Valid(d) && !LeapDay(d)
    ensures DaysToCalendarWrapping(CalendarToDays(d)) == Date(WrapI32(d.year), d.month, d.day)
  {
    var era, doe := PartsAreFound(d);
    DayOfYearIsSmall(d);
    YearWraps(YearOfEra(doe, 1461), era);
    NothingWraps(MarchYear(d), DayOfYear(d));
    hide WrapI32, WrappingFromDayOfYear, FromDayOfYear, YearOfEra, YearStart, MarchYear, DayOfYear,
      DaysToCalendarWrapping, CalendarToDays, Valid, LeapDay;
  }

  /** So it gives the true date exactly off 29 February and when an `i32` holds the
      year. */
  lemma WrappingIsExactIff(d: Date)
    requires Valid(d)
    ensures DaysToCalendarWrapping(CalendarToDays(d)) == d <==> !LeapDay(d) && FitsI32(d.year)
  {
    if !LeapDay(d) {
      WrappingKeeps(d);
    } else if d.year % 400 != 0 {
      LeapDayWraps(d);
    } else {
      EraEndWraps(d);
    }
    hide DaysToCalendarWrapping, CalendarToDays;
  }

  /** On the last 29 February of an era it gives 1 March. */
  lemma EraEndWraps(d: Date)
    requires Valid(d) && LeapDay(d) && d.year % 400 == 0
    ensures DaysToCalendarWrapping(CalendarToDays(d)) == Date(WrapI32(d.year), 3, 1)
  {
    var era := EraEndsAt(d);
    YearWraps(400, era);
    NothingWraps(d.year, 0);
    assert FromDayOfYear(d.year, 0) == Date(d.year, 3, 1);
    hide WrapI32, WrappingFromDayOfYear, FromDayOfYear, YearOfEra, YearStart, CalendarToDays, Valid, LeapDay;
  }

  lemma EraEndsAt(d: Date) returns (era: int)
    requires Valid(d) && LeapDay(d) && d.year % 400 == 0
    ensures (CalendarToDays(d) + 719468) / 146097 == era && (CalendarToDays(d) + 719468) % 146097 == 146096
    ensures d.year == 400 + era * 400
    ensures YearOfEra(146096, 1461) == 400 && YearStart(400) == 146096
  {
    era := d.year / 400 - 1;
    assert MarchYear(d) == era * 400 + 399;
    DivUnique(MarchYear(d), 400, era, 399);
    DivUnique(CalendarToDays(d) + 719468, 146097, era, 146096);
  }

  /** The day after the last: with overflow checks no result, without them a year of
      the wrong sign, though its seconds are well inside `i64`. */
  lemma FullRangeFails()
    ensures var days := CalendarToDays(LAST) + 1;
            && FitsI64(days * 86400) && CheckedCalendar(days) == OutOfRange
            && DaysToCalendarWrapping(days) == Date(-2147483648, 1, 1)
  {
    var next := Date(2147483648, 1, 1);
    DayAfterDay(LAST);
    assert Tomorrow(LAST) == next;
    CheckedIsExactIff(CalendarToDays(next));
    DateRoundTrip(next);
    WrappingKeeps(next);
  }
}
