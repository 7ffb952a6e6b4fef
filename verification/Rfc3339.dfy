/** RFC 3339 timestamps (src/time_utils.rs): the two formatters, the liberal parser
    and the millisecond parser. A string stands for its bytes. */
module Rfc3339 {
  import opened Wrappers
  import opened Calendar

  // ---- Decimal fields ---------------------------------------------------------

  predicate IsDigit(c: char)
  {
    '0' <= c <= '9'
  }

  function Pow10(w: nat): nat
  {
    if w == 0 then 1 else 10 * Pow10(w - 1)
  }

  /** The last `w` decimal digits of `n`. */
  function Fixed(n: nat, w: nat): (s: string)
    ensures |s| == w && forall i :: 0 <= i < w ==> IsDigit(s[i])
  {
    if w == 0 then "" else Fixed(n / 10, w - 1) + ['0' + (n % 10) as char]
  }

  /** The shortest decimal form. */
  function Decimal(n: nat): string
  {
    if n < 10 then ['0' + n as char] else Decimal(n / 10) + ['0' + (n % 10) as char]
  }

  /** Zero-padded to at least `w` digits. */
  function Padded(n: nat, w: nat): string
  {
    if n < Pow10(w) then Fixed(n, w) else Decimal(n)
  }

  function DigitValue(c: char): nat
    requires IsDigit(c)
  {
    c as int - '0' as int
  }

  /** The value of a string of digits. */
  function Value(s: string): nat
    requires forall i :: 0 <= i < |s| ==> IsDigit(s[i])
  {
    if s == "" then 0 else 10 * Value(s[..|s| - 1]) + DigitValue(s[|s| - 1])
  }

  predicate AllDigits(s: string)
  {
    forall i :: 0 <= i < |s| ==> IsDigit(s[i])
  }

  function FixedValue(s: string, w: nat): Option<nat>
  {
    if |s| == w && AllDigits(s) then Some(Value(s)) else None
  }

  /** `parse_fixed`: exactly `w` digits. */
  method ParseFixed(s: string, w: nat) returns (r: Option<nat>)
    ensures r == FixedValue(s, w)
  {
    if |s| != w {
      return None;
    }
    var n := 0;
    for i := 0 to |s|
      invariant AllDigits(s[..i]) && n == Value(s[..i])
    {
      if !IsDigit(s[i]) {
        return None;
      }
      assert s[..i + 1][..i] == s[..i];
      n := n * 10 + DigitValue(s[i]);
    }
    assert s[..|s|] == s;
    return Some(n);
  }

  lemma {:induction false} FixedParses(n: nat, w: nat)
    requires n < Pow10(w)
    ensures FixedValue(Fixed(n, w), w) == Some(n)
    decreases w
  {
    if w > 0 {
      FixedParses(n / 10, w - 1);
      assert Fixed(n, w)[..w - 1] == Fixed(n / 10, w - 1);
    }
  }

  // ---- The formatters ---------------------------------------------------------

  function TimeOfDay(tod: nat): string
  {
    Padded(tod / 3600, 2) + ":" + Padded((tod % 3600) / 60, 2) + ":" + Padded(tod % 60, 2)
  }

  function DateText(d: Date): string
    requires d.year >= 0 && d.month >= 0 && d.day >= 0
  {
    Padded(d.year, 4) + "-" + Padded(d.month, 2) + "-" + Padded(d.day, 2)
  }

  /** Date and time of day up to whole seconds, as both formatters write it. */
  function DateTime(d: Date, tod: nat): string
    requires d.year >= 0 && d.month >= 0 && d.day >= 0
  {
    DateText(d) + "T" + TimeOfDay(tod)
  }

  /** `None` when the conversion of the day subtracts below zero. */
  function Stem(secs: nat): Option<string>
  {
    match DaysToCalendar(secs / 86400, 1461)
    case Ok(d) => if d.year >= 0 && d.month >= 0 && d.day >= 0 then Some(DateTime(d, secs % 86400)) else None
    case Underflow => None
  }

  /** A time before 1970 counts as 1970-01-01. */
  function SinceEpoch(t: int): nat
  {
    if t < 0 then 0 else t
  }

  /** `format_rfc3339_secs`, of signed Unix seconds. */
  function FormatSecs(t: int): Option<string>
  {
    match Stem(SinceEpoch(t))
    case Some(s) => Some(s + "Z")
    case None => None
  }

  /** `format_rfc3339_millis`, of signed Unix milliseconds. */
  function FormatMillis(t: int): Option<string>
  {
    match Stem(SinceEpoch(t) / 1000)
    case Some(s) => Some(s + "." + Padded(SinceEpoch(t) % 1000, 3) + "Z")
    case None => None
  }

  // ---- The parsers ------------------------------------------------------------

  function SkipDigits(b: string, pos: nat): (r: nat)
    requires pos <= |b|
    ensures pos <= r <= |b|
    decreases |b| - pos
  {
    if pos < |b| && IsDigit(b[pos]) then SkipDigits(b, pos + 1) else pos
  }

  /** Where the zone starts: after the seconds or after the fraction. */
  function ZoneAt(b: string): (r: nat)
    requires |b| >= 20
    ensures 19 <= r <= |b|
  {
    if b[19] == '.' then SkipDigits(b, 20) else 19
  }

  /** The zone's offset in seconds. Bytes after it are not looked at. */
  function Zone(b: string, pos: nat): Option<int>
  {
    if pos >= |b| then None
    else if b[pos] == 'Z' || b[pos] == 'z' then Some(0)
    else if b[pos] != '+' && b[pos] != '-' then None
    else if |b| < pos + 6 then None
    else match (FixedValue(b[pos + 1..pos + 3], 2), FixedValue(b[pos + 4..pos + 6], 2))
      case (Some(oh), Some(om)) =>
        if b[pos + 3] != ':' || oh > 23 || om > 59 then None
        else
          var offset: int := oh * 3600 + om * 60;
          Some(if b[pos] == '+' then offset else -offset)
      case _ => None
  }

  datatype Fields = Fields(year: nat, month: nat, day: nat, hour: nat, min: nat, sec: nat)

  /** The six numbers of the first 19 bytes. */
  function ReadFields(b: string): Option<Fields>
    requires |b| >= 19
  {
    if b[4] != '-' || b[7] != '-' || b[13] != ':' || b[16] != ':' then None
    else if b[10] != 'T' && b[10] != 't' then None
    else match (FixedValue(b[0..4], 4), FixedValue(b[5..7], 2), FixedValue(b[8..10], 2),
                FixedValue(b[11..13], 2), FixedValue(b[14..16], 2), FixedValue(b[17..19], 2))
      case (Some(y), Some(mo), Some(d), Some(h), Some(mi), Some(s)) => Some(Fields(y, mo, d, h, mi, s))
      case _ => None
  }

  predicate InRange(f: Fields)
  {
    && 1 <= f.year <= 9999 && 1 <= f.month <= 12 && 1 <= f.day <= 31
    && f.hour <= 23 && f.min <= 59 && f.sec <= 60
  }

  function LocalSecs(f: Fields): int
    requires InRange(f)
  {
    CalendarToDays(Date(f.year, f.month, f.day)) * 86400 + f.hour * 3600 + f.min * 60 + f.sec
  }

  function Parse(b: string): Option<int>
  {
    if |b| < 20 then None
    else match (ReadFields(b), Zone(b, ZoneAt(b)))
      case (Some(f), Some(offset)) => if InRange(f) then Some(LocalSecs(f) - offset) else None
      case _ => None
  }

  /** `parse_rfc3339_to_unix_secs`. */
  method ParseToUnixSecs(b: string) returns (r: Option<int>)
    ensures r == Parse(b)
  {
    if |b| < 20 {
      return None;
    }
    if b[4] != '-' || b[7] != '-' || b[13] != ':' || b[16] != ':' {
      return None;
    }
    if b[10] != 'T' && b[10] != 't' {
      return None;
    }
    var year := ParseFixed(b[0..4], 4);
    var month := ParseFixed(b[5..7], 2);
    var day := ParseFixed(b[8..10], 2);
    var hour := ParseFixed(b[11..13], 2);
    var min := ParseFixed(b[14..16], 2);
    var sec := ParseFixed(b[17..19], 2);
    if year.None? || month.None? || day.None? || hour.None? || min.None? || sec.None? {
      return None;
    }
    var pos := 19;
    if b[pos] == '.' {
      pos := pos + 1;
      while pos < |b| && IsDigit(b[pos])
        invariant 20 <= pos <= |b|
        invariant SkipDigits(b, pos) == SkipDigits(b, 20)
      {
        pos := pos + 1;
      }
    }
    assert pos == ZoneAt(b);
    var offset := ParseZone(b, pos);
    if offset.None? {
      return None;
    }
    var f := Fields(year.value, month.value, day.value, hour.value, min.value, sec.value);
    if !(1 <= f.year <= 9999) || !(1 <= f.month <= 12) || !(1 <= f.day <= 31) {
      return None;
    }
    if f.hour > 23 || f.min > 59 || f.sec > 60 {
      return None;
    }
    var days := CalendarToDays(Date(f.year, f.month, f.day));
    return Some(days * 86400 + f.hour * 3600 + f.min * 60 + f.sec - offset.value);
  }

  method ParseZone(b: string, pos: nat) returns (r: Option<int>)
    ensures r == Zone(b, pos)
  {
    if pos >= |b| {
      return None;
    }
    if b[pos] == 'Z' || b[pos] == 'z' {
      return Some(0);
    }
    if b[pos] != '+' && b[pos] != '-' {
      return None;
    }
    if |b| < pos + 6 {
      return None;
    }
    var sign: int := if b[pos] == '+' then 1 else -1;
    var oh := ParseFixed(b[pos + 1..pos + 3], 2);
    if oh.None? || b[pos + 3] != ':' {
      return None;
    }
    var om := ParseFixed(b[pos + 4..pos + 6], 2);
    if om.None? || oh.value > 23 || om.value > 59 {
      return None;
    }
    return Some(sign * (oh.value * 3600 + om.value * 60));
  }

  /** `parse_rfc3339_millis`, to Unix milliseconds. */
  function ParseMillis(b: string): Option<int>
  {
    if |b| != 24 || b[19] != '.' || b[23] != 'Z' then None
    else match (Parse(b), FixedValue(b[20..23], 3))
      case (Some(secs), Some(ms)) => if secs < 0 then None else Some(secs * 1000 + ms)
      case _ => None
  }

  // ---- Format, then parse -------------------------------------------------------

  /** The first second of the year 10000. */
  const YEAR_10000: int := 253402300800

  /** The calendar date of a time. */
  function DateAt(secs: int): Date
  {
    match DaysToCalendar(secs / 86400, 1460)
    case Ok(d) => d
    case Underflow => Date(0, 1, 1)
  }

  lemma DateInRange(secs: nat)
    requires secs < YEAR_10000
    ensures Valid(DateAt(secs)) && 1970 <= DateAt(secs).year <= 9999
    ensures CalendarToDays(DateAt(secs)) == secs / 86400
  {
    DayRoundTrip(secs / 86400);
    var d := DateAt(secs);
    Epoch();
    LastDay();
    DaysAreOrdered(d, Date(1970, 1, 1));
    DaysAreOrdered(Date(9999, 12, 31), d);
  }

  lemma LastDay()
    ensures CalendarToDays(Date(9999, 12, 31)) == 2932896 == YEAR_10000 / 86400 - 1
  {
  }

  /** What the formatters write, by the kind of day. */
  lemma StemMeans(secs: nat)
    requires secs < YEAR_10000
    ensures var d := DateAt(secs);
            && Valid(d) && 1970 <= d.year <= 9999
            && Stem(secs) ==
               if !LeapDay(d) then Some(DateTime(d, secs % 86400))
               else if d.year % 400 == 0 then Some(DateTime(Date(d.year, 3, 1), secs % 86400))
               else None
  {
    DateInRange(secs);
    DateRoundTrip(DateAt(secs));
  }

  lemma Powers()
    ensures Pow10(2) == 100 && Pow10(3) == 1000 && Pow10(4) == 10000
  {
    assert Pow10(1) == 10;
    assert Pow10(2) == 100;
    assert Pow10(3) == 1000;
  }

  lemma DateTextParts(d: Date)
    requires Valid(d) && 1 <= d.year <= 9999
    ensures var t := DateText(d);
            && |t| == 10 && t[4] == '-' && t[7] == '-'
            && t[0..4] == Fixed(d.year, 4) && t[5..7] == Fixed(d.month, 2) && t[8..10] == Fixed(d.day, 2)
  {
    Powers();
  }

  lemma TimeOfDayParts(tod: nat)
    requires tod < 86400
    ensures var t := TimeOfDay(tod);
            && |t| == 8 && t[2] == ':' && t[5] == ':'
            && t[0..2] == Fixed(tod / 3600, 2) && t[3..5] == Fixed((tod % 3600) / 60, 2) && t[6..8] == Fixed(tod % 60,
                                                                                                             2)
  {
    Powers();
  }

  /** The bytes of a date and time of the years 1 to 9999, field by field. */
  lemma DateTimeReads(d: Date, tod: nat, rest: string)
    requires Valid(d) && 1 <= d.year <= 9999 && tod < 86400
    ensures |DateTime(d, tod)| == 19
    ensures ReadFields(DateTime(d, tod) + rest) ==
            Some(Fields(d.year, d.month, d.day, tod / 3600, (tod % 3600) / 60, tod % 60))
  {
    Powers();
    DateTextParts(d);
    TimeOfDayParts(tod);
    hide Fixed, FixedValue, DateText, TimeOfDay, Pow10;
    FixedParses(d.year, 4);
    FixedParses(d.month, 2);
    FixedParses(d.day, 2);
    FixedParses(tod / 3600, 2);
    FixedParses((tod % 3600) / 60, 2);
    FixedParses(tod % 60, 2);
    SlicesRead(DateText(d), TimeOfDay(tod), rest);
  }

  lemma SlicesRead(date: string, time: string, rest: string)
    requires |date| == 10 && |time| == 8
    ensures var b := date + "T" + time + rest;
            && b[4] == date[4] && b[7] == date[7] && b[10] == 'T' && b[13] == time[2] && b[16] == time[5]
            && b[0..4] == date[0..4] && b[5..7] == date[5..7] && b[8..10] == date[8..10]
            && b[11..13] == time[0..2] && b[14..16] == time[3..5] && b[17..19] == time[6..8]
  {
  }

  lemma TodSplits(tod: nat)
    ensures tod == tod / 3600 * 3600 + (tod % 3600) / 60 * 60 + tod % 60
  {
    var h, r := tod / 3600, tod % 3600;
    var m, s := r / 60, r % 60;
    assert tod == 60 * (60 * h + m) + s;
    DivUnique(tod, 60, 60 * h + m, s);
  }

  lemma StemParses(d: Date, tod: nat, rest: string)
    requires Valid(d) && 1 <= d.year <= 9999 && tod < 86400 && rest != ""
    requires Zone(DateTime(d, tod) + rest, ZoneAt(DateTime(d, tod) + rest)) == Some(0)
    ensures Parse(DateTime(d, tod) + rest) == Some(CalendarToDays(d) * 86400 + tod)
  {
    DateTimeReads(d, tod, rest);
    TodSplits(tod);
  }

  /** The date the formatters show: on the last 29 February of an era the day
      after it. */
  function Shown(d: Date): Date
  {
    if LeapDay(d) then Date(d.year, 3, 1) else d
  }

  lemma ShownDay(d: Date)
    requires Valid(d)
    ensures Valid(Shown(d)) && Shown(d).year == d.year
    ensures CalendarToDays(Shown(d)) == CalendarToDays(d) + (if LeapDay(d) then 1 else 0)
  {
    if LeapDay(d) {
      assert Shown(d) == Tomorrow(d);
      DayAfterDay(d);
    }
  }

  lemma SecsParse(d: Date, tod: nat)
    requires Valid(d) && 1 <= d.year <= 9999 && tod < 86400
    ensures Parse(DateTime(d, tod) + "Z") == Some(CalendarToDays(d) * 86400 + tod)
  {
    DateTimeReads(d, tod, "Z");
    StemParses(d, tod, "Z");
  }

  /** What the shown date stands for: the time itself, or a day later. */
  lemma ShownTime(secs: nat)
    requires secs < YEAR_10000
    ensures var d := DateAt(secs);
            && Valid(Shown(d)) && 1970 <= Shown(d).year <= 9999
            && CalendarToDays(Shown(d)) * 86400 + secs % 86400 == secs + (if LeapDay(d) then 86400 else 0)
  {
    DateInRange(secs);
    ShownDay(DateAt(secs));
  }

  lemma ShownSecsParse(secs: nat)
    requires secs < YEAR_10000 && Stem(secs).Some?
    ensures Parse(Stem(secs).value + "Z") == Some(secs + (if LeapDay(DateAt(secs)) then 86400 else 0))
  {
    ShownTime(secs);
    StemMeans(secs);
    hide Stem, DateAt, Shown, Valid, LeapDay, CalendarToDays, Parse, DateTime;
    SecsParse(Shown(DateAt(secs)), secs % 86400);
  }

  lemma StemLength(secs: nat)
    requires secs < YEAR_10000 && Stem(secs).Some?
    ensures |Stem(secs).value| == 19
  {
    ShownTime(secs);
    StemMeans(secs);
    DateTimeReads(Shown(DateAt(secs)), secs % 86400, "");
  }

  lemma PaddedMillisParse(stem: string, base: nat, ms: nat)
    requires |stem| == 19 && Parse(stem + "Z") == Some(base) && ms < 1000
    ensures ParseMillis(stem + "." + Padded(ms, 3) + "Z") == Some(base * 1000 + ms)
  {
    Powers();
    FixedParses(ms, 3);
    MillisParse(stem, Fixed(ms, 3));
  }

  lemma ShownMillisParse(secs: nat, ms: nat)
    requires secs < YEAR_10000 && Stem(secs).Some? && ms < 1000
    ensures ParseMillis(Stem(secs).value + "." + Padded(ms, 3) + "Z") ==
            Some((secs + (if LeapDay(DateAt(secs)) then 86400 else 0)) * 1000 + ms)
  {
    hide *;
    ShownSecsParse(secs);
    StemLength(secs);
    PaddedMillisParse(Stem(secs).value, secs + (if LeapDay(DateAt(secs)) then 86400 else 0), ms);
  }

  lemma FormatMillisSplit(secs: nat, ms: nat)
    requires ms < 1000
    ensures FormatMillis(secs * 1000 + ms) ==
            if Stem(secs).Some? then Some(Stem(secs).value + "." + Padded(ms, 3) + "Z") else None
  {
    DivUnique(secs * 1000 + ms, 1000, secs, ms);
  }

  /** Format to the second, then parse: the same instant, for every time of the
      years 1970 to 9999 exactly when it is not on a 29 February. */
  lemma SecsRoundTrip(secs: nat)
    requires secs < YEAR_10000
    ensures (FormatSecs(secs).Some? && Parse(FormatSecs(secs).value) == Some(secs))
            <==> !LeapDay(DateAt(secs))
  {
    StemMeans(secs);
    if Stem(secs).Some? {
      ShownSecsParse(secs);
    }
  }

  /** The same to the millisecond. */
  lemma MillisRoundTrip(secs: nat, ms: nat)
    requires secs < YEAR_10000 && ms < 1000
    ensures var t := secs * 1000 + ms;
            (FormatMillis(t).Some? && ParseMillis(FormatMillis(t).value) == Some(t))
            <==> !LeapDay(DateAt(secs))
  {
    hide *;
    FormatMillisSplit(secs, ms);
    StemMeans(secs);
    if Stem(secs).Some? {
      ShownMillisParse(secs, ms);
    }
  }

  /** Three fraction digits add milliseconds to the time the stem stands for. */
  lemma MillisParse(stem: string, f: string)
    requires |stem| == 19 && |f| == 3 && AllDigits(f)
    requires Parse(stem + "Z").Some? && Parse(stem + "Z").value >= 0
    ensures ParseMillis(stem + "." + f + "Z") == Some(Parse(stem + "Z").value * 1000 + Value(f))
  {
    var b, z := stem + "." + f + "Z", stem + "Z";
    ReadsPrefix(stem, "." + f + "Z", "Z");
    assert b == stem + ("." + f + "Z");
    assert b[20..23] == f && b[19] == '.' && b[23] == 'Z' && z[19] == 'Z';
    assert forall i :: 20 <= i < 23 ==> b[i] == f[i - 20];
    SkipsAll(b, 20, 23);
  }

  /** What a build without overflow checks prints for a 29 February does not
      parse. */
  lemma WrappedDateDoesNotParse(d: Date, tod: nat)
    requires Valid(d) && LeapDay(d) && d.year % 400 != 0 && 1970 <= d.year <= 9999
    ensures var shown := DaysToCalendarWrapping(CalendarToDays(d));
            shown.year >= 0 && shown.month >= 0 && shown.day >= 0 && Parse(DateTime(shown, tod) + "Z") == None
  {
    LeapDayWraps(d);
    Powers();
    var y := Fixed(d.year, 4);
    assert Decimal(163) == "163" by {
      assert Decimal(16) == "16";
    }
    var b := DateTime(Date(d.year, 163, 215), tod) + "Z";
    assert DateText(Date(d.year, 163, 215)) == y + "-" + "163" + "-" + Padded(215, 2);
    assert b[7] == DateText(Date(d.year, 163, 215))[7] == '3';
  }

  // ---- Formatted times sort in time order ----------------------------------------

  /** Bytewise order. */
  predicate Less(a: string, b: string)
    decreases |a|
  {
    if b == "" then false
    else if a == "" then true
    else a[0] < b[0] || (a[0] == b[0] && Less(a[1..], b[1..]))
  }

  lemma {:induction false} LessConcat(a: string, b: string, x: string, y: string)
    requires |a| == |b|
    ensures Less(a + x, b + y) <==> Less(a, b) || (a == b && Less(x, y))
    decreases |a|
  {
    if a == "" {
      assert a + x == x && b + y == y;
    } else {
      assert (a + x)[1..] == a[1..] + x && (b + y)[1..] == b[1..] + y;
      LessConcat(a[1..], b[1..], x, y);
      assert a == [a[0]] + a[1..] && b == [b[0]] + b[1..];
    }
  }

  lemma {:induction false} FixedOrder(n: nat, m: nat, w: nat)
    requires n < Pow10(w) && m < Pow10(w)
    ensures Less(Fixed(n, w), Fixed(m, w)) <==> n < m
    ensures Fixed(n, w) == Fixed(m, w) <==> n == m
    decreases w
  {
    if w > 0 {
      FixedOrder(n / 10, m / 10, w - 1);
      var a, b := ['0' + (n % 10) as char], ['0' + (m % 10) as char];
      assert a[1..] == "" && b[1..] == "";
      LessConcat(Fixed(n / 10, w - 1), Fixed(m / 10, w - 1), a, b);
      FixedParses(n, w);
      FixedParses(m, w);
    }
  }

  /** One decimal field of width 2 or 4 and the separator after it. */
  datatype Field = Field(n: nat, w: nat, separator: string)

  function Render(fs: seq<Field>): string
  {
    if fs == [] then "" else Fixed(fs[0].n, fs[0].w) + fs[0].separator + Render(fs[1..])
  }

  predicate Alike(fs: seq<Field>, gs: seq<Field>)
  {
    |fs| == |gs| && forall i :: 0 <= i < |fs| ==>
      && fs[i].w == gs[i].w && fs[i].separator == gs[i].separator
      && fs[i].n < Pow10(fs[i].w) && gs[i].n < Pow10(fs[i].w)
  }

  /** The order of equally long tuples of numbers. */
  predicate TupleLess(fs: seq<Field>, gs: seq<Field>)
    requires |fs| == |gs|
  {
    fs != [] && (fs[0].n < gs[0].n || (fs[0].n == gs[0].n && TupleLess(fs[1..], gs[1..])))
  }

  lemma LessSelf(s: string)
    ensures !Less(s, s)
  {
  }

  /** Two fields of one width, followed by one separator and something more. */
  lemma FieldOrder(n: nat, m: nat, w: nat, separator: string, x: string, y: string)
    requires n < Pow10(w) && m < Pow10(w)
    ensures Less(Fixed(n, w) + separator + x, Fixed(m, w) + separator + y) <==> n < m || (n == m && Less(x, y))
  {
    FixedOrder(n, m, w);
    LessSelf(separator);
    LessConcat(separator, separator, x, y);
    LessConcat(Fixed(n, w), Fixed(m, w), separator + x, separator + y);
    assert Fixed(n, w) + separator + x == Fixed(n, w) + (separator + x);
    assert Fixed(m, w) + separator + y == Fixed(m, w) + (separator + y);
  }

  lemma {:induction false} RenderOrder(fs: seq<Field>, gs: seq<Field>)
    requires Alike(fs, gs)
    ensures Less(Render(fs), Render(gs)) <==> TupleLess(fs, gs)
    decreases |fs|
  {
    if fs != [] {
      RenderOrder(fs[1..], gs[1..]);
      FieldOrder(fs[0].n, gs[0].n, fs[0].w, fs[0].separator, Render(fs[1..]), Render(gs[1..]));
    }
  }

  function FieldsOf(d: Date, tod: nat): seq<Field>
    requires d.year >= 0 && d.month >= 0 && d.day >= 0
  {
    [Field(d.year, 4, "-"), Field(d.month, 2, "-"), Field(d.day, 2, "T"),
     Field(tod / 3600, 2, ":"), Field((tod % 3600) / 60, 2, ":"), Field(tod % 60, 2, "Z")]
  }

  lemma DateTimeRenders(d: Date, tod: nat)
    requires Valid(d) && 1 <= d.year <= 9999 && tod < 86400
    ensures DateTime(d, tod) + "Z" == Render(FieldsOf(d, tod))
    ensures forall i :: 0 <= i < 6 ==> FieldsOf(d, tod)[i].n < Pow10(FieldsOf(d, tod)[i].w)
  {
    Powers();
    var fs := FieldsOf(d, tod);
    var t := Render(fs[3..]);
    assert fs[5..][1..] == [] && fs[4..][1..] == fs[5..] && fs[3..][1..] == fs[4..];
    assert t == TimeOfDay(tod) + "Z" by {
      assert Render(fs[5..]) == Fixed(tod % 60, 2) + "Z";
      assert Render(fs[4..]) == Fixed((tod % 3600) / 60, 2) + ":" + Render(fs[5..]);
    }
    assert fs[2..][1..] == fs[3..] && fs[1..][1..] == fs[2..];
    assert Render(fs[2..]) == Fixed(d.day, 2) + "T" + t;
    assert Render(fs[1..]) == Fixed(d.month, 2) + "-" + Render(fs[2..]);
    assert Render(fs) == DateText(d) + "T" + t;
  }

  lemma TodOrder(a: nat, b: nat)
    ensures a < b <==>
            || a / 3600 < b / 3600
            || (a / 3600 == b / 3600 && (a % 3600) / 60 < (b % 3600) / 60)
            || (a / 3600 == b / 3600 && (a % 3600) / 60 == (b % 3600) / 60 && a % 60 < b % 60)
  {
    TodSplits(a);
    TodSplits(b);
  }

  lemma TupleOrder(d: Date, a: nat, e: Date, b: nat)
    requires d.year >= 0 && d.month >= 0 && d.day >= 0 && e.year >= 0 && e.month >= 0 && e.day >= 0
    ensures TupleLess(FieldsOf(d, a), FieldsOf(e, b)) <==> Before(d, e) || (d == e && a < b)
  {
    TodOrder(a, b);
    var f, g := FieldsOf(d, a), FieldsOf(e, b);
    assert forall i :: 0 <= i < 5 ==> f[i..][1..] == f[i + 1..] && g[i..][1..] == g[i + 1..];
    assert TupleLess(f[5..], g[5..]) <==> a % 60 < b % 60;
    assert TupleLess(f[4..], g[4..]) <==> f[4].n < g[4].n || (f[4].n == g[4].n && TupleLess(f[5..], g[5..]));
    assert TupleLess(f[3..], g[3..]) <==> a < b;
    assert TupleLess(f[2..], g[2..]) <==> f[2].n < g[2].n || (f[2].n == g[2].n && a < b);
    assert f[0..] == f && g[0..] == g;
  }

  /** Off 29 February, the formatted times of the years 1970 to 9999 sort bytewise
      in time order. */
  lemma FormattedTimesSort(t: nat, u: nat)
    requires t < YEAR_10000 && u < YEAR_10000 && !LeapDay(DateAt(t)) && !LeapDay(DateAt(u))
    ensures FormatSecs(t).Some? && FormatSecs(u).Some?
    ensures Less(FormatSecs(t).value, FormatSecs(u).value) <==> t < u
  {
    StemMeans(t);
    StemMeans(u);
    DateInRange(t);
    DateInRange(u);
    var d, e := DateAt(t), DateAt(u);
    DateTimeRenders(d, t % 86400);
    DateTimeRenders(e, u % 86400);
    RenderOrder(FieldsOf(d, t % 86400), FieldsOf(e, u % 86400));
    TupleOrder(d, t % 86400, e, u % 86400);
    DaysAreOrdered(d, e);
    DaysAreOrdered(e, d);
  }

  /** The texts up to whole seconds are in time order themselves. */
  lemma StemsSort(t: nat, u: nat)
    requires t < YEAR_10000 && u < YEAR_10000 && !LeapDay(DateAt(t)) && !LeapDay(DateAt(u))
    ensures Stem(t).Some? && Stem(u).Some? && |Stem(t).value| == 19 == |Stem(u).value|
    ensures Less(Stem(t).value, Stem(u).value) <==> t < u
    ensures Stem(t).value == Stem(u).value <==> t == u
  {
    FormattedTimesSort(t, u);
    FormattedTimesSort(u, t);
    StemLength(t);
    StemLength(u);
    LessSelf("Z");
    hide Stem;
    LessConcat(Stem(t).value, Stem(u).value, "Z", "Z");
    LessConcat(Stem(u).value, Stem(t).value, "Z", "Z");
    LessSelf(Stem(t).value);
  }

  /** The millisecond form sorts bytewise in time order, too. */
  lemma FormattedMillisSort(t: nat, ms: nat, u: nat, us: nat)
    requires t < YEAR_10000 && u < YEAR_10000 && !LeapDay(DateAt(t)) && !LeapDay(DateAt(u))
    requires ms < 1000 && us < 1000
    ensures var a, b := FormatMillis(t * 1000 + ms), FormatMillis(u * 1000 + us);
            && a.Some? && b.Some?
            && (Less(a.value, b.value) <==> t * 1000 + ms < u * 1000 + us)
  {
    hide *;
    StemsSort(t, u);
    FormatMillisSplit(t, ms);
    FormatMillisSplit(u, us);
    PaddedOrder(Stem(t).value, ms, Stem(u).value, us);
  }

  lemma PaddedOrder(a: string, ms: nat, b: string, us: nat)
    requires |a| == |b| && ms < 1000 && us < 1000
    ensures Less(a + "." + Padded(ms, 3) + "Z", b + "." + Padded(us, 3) + "Z")
       <==> Less(a, b) || (a == b && ms < us)
  {
    Powers();
    var x, y := Fixed(ms, 3) + "Z" + "", Fixed(us, 3) + "Z" + "";
    LessSelf("");
    FieldOrder(ms, us, 3, "Z", "", "");
    assert Padded(ms, 3) == Fixed(ms, 3) && Padded(us, 3) == Fixed(us, 3);
    hide Fixed, Padded;
    LessSelf(".");
    LessConcat(".", ".", x, y);
    LessConcat(a, b, "." + x, "." + y);
    assert a + "." + Fixed(ms, 3) + "Z" == a + ("." + x) && b + "." + Fixed(us, 3) + "Z" == b + ("." + y);
  }

  // ---- Fractions and offsets -----------------------------------------------------

  lemma {:induction false} SkipsAll(b: string, pos: nat, end: nat)
    requires pos <= end <= |b| && (forall i :: pos <= i < end ==> IsDigit(b[i]))
    requires end < |b| ==> !IsDigit(b[end])
    ensures SkipDigits(b, pos) == end
    decreases end - pos
  {
    if pos < end {
      SkipsAll(b, pos + 1, end);
    }
  }

  lemma ReadsPrefix(stem: string, x: string, y: string)
    requires |stem| == 19
    ensures ReadFields(stem + x) == ReadFields(stem + y)
  {
    var a, b := stem + x, stem + y;
    assert a[0..4] == b[0..4] && a[5..7] == b[5..7] && a[8..10] == b[8..10];
    assert a[11..13] == b[11..13] && a[14..16] == b[14..16] && a[17..19] == b[17..19];
  }

  /** A numeric zone and what its bytes say. */
  function ZoneText(plus: bool, hh: string, mm: string): string
  {
    (if plus then "+" else "-") + hh + ":" + mm
  }

  /** The shift a numeric zone stands for, `None` when it is refused. */
  function Shift(plus: bool, hh: string, mm: string): Option<int>
  {
    match (FixedValue(hh, 2), FixedValue(mm, 2))
    case (Some(oh), Some(om)) =>
      var offset: int := oh * 3600 + om * 60;
      if oh > 23 || om > 59 then None else Some(if plus then offset else -offset)
    case _ => None
  }

  /** The zone behind a fraction is found and read. */
  lemma ZoneReads(stem: string, point: bool, fraction: string, plus: bool, hh: string, mm: string, rest: string)
    requires |stem| == 19 && AllDigits(fraction) && (!point ==> fraction == "") && |hh| == 2 && |mm| == 2
    ensures var b := stem + ((if point then "." else "") + (fraction + (ZoneText(plus, hh, mm) + rest)));
            |b| >= 25 && Zone(b, ZoneAt(b)) == Shift(plus, hh, mm)
  {
    var zone := ZoneText(plus, hh, mm);
    var dot := if point then "." else "";
    var b := stem + (dot + (fraction + (zone + rest)));
    var at := 19 + |dot| + |fraction|;
    ZoneBytes(stem + dot + fraction, plus, hh, mm, rest);
    assert b == stem + dot + fraction + (zone + rest);
    if point {
      assert b[20..at] == fraction;
      assert forall i :: 20 <= i < at ==> b[i] == fraction[i - 20];
      assert b[at] == zone[0];
      SkipsAll(b, 20, at);
    } else {
      assert b[19] == zone[0];
    }
    assert ZoneAt(b) == at;
  }

  lemma ZoneBytes(before: string, plus: bool, hh: string, mm: string, rest: string)
    requires |hh| == 2 && |mm| == 2
    ensures var b := before + (ZoneText(plus, hh, mm) + rest);
            Zone(b, |before|) == Shift(plus, hh, mm)
  {
    var zone, at := ZoneText(plus, hh, mm), |before|;
    var b := before + (zone + rest);
    assert zone[1..3] == hh && zone[4..6] == mm && zone[3] == ':';
    assert b[at..at + 6] == zone;
    assert b[at + 1..at + 3] == hh && b[at + 4..at + 6] == mm && b[at + 3] == ':' && b[at] == zone[0];
  }

  lemma UtcReads(stem: string)
    requires |stem| == 19
    ensures Zone(stem + "Z", ZoneAt(stem + "Z")) == Some(0)
  {
    assert (stem + "Z")[19] == 'Z';
  }

  /** Any fraction and any numeric zone: the time is the one with `Z` in its place,
      minus the offset, and is refused exactly when one of the two is. */
  lemma ParseShifts(stem: string, point: bool, fraction: string, plus: bool, hh: string, mm: string, rest: string)
    requires |stem| == 19 && AllDigits(fraction) && (!point ==> fraction == "") && |hh| == 2 && |mm| == 2
    ensures Parse(stem + ((if point then "." else "") + (fraction + (ZoneText(plus, hh, mm) + rest)))) ==
            match (Parse(stem + "Z"), Shift(plus, hh, mm))
            case (Some(utc), Some(shift)) => Some(utc - shift)
            case _ => None
  {
    hide Zone, ZoneAt, ZoneText, Shift, ReadFields, AllDigits, InRange, LocalSecs;
    var tail := (if point then "." else "") + (fraction + (ZoneText(plus, hh, mm) + rest));
    ReadsPrefix(stem, tail, "Z");
    ZoneReads(stem, point, fraction, plus, hh, mm, rest);
    UtcReads(stem);
  }

  /** A fraction of any number of digits before `Z` is dropped. */
  lemma FractionIsDropped(stem: string, point: bool, fraction: string, zulu: char, rest: string)
    requires |stem| == 19 && AllDigits(fraction) && (!point ==> fraction == "") && (zulu == 'Z' || zulu == 'z')
    ensures Parse(stem + ((if point then "." else "") + (fraction + ([zulu] + rest)))) == Parse(stem + "Z")
  {
    var dot := if point then "." else "";
    var tail := dot + (fraction + ([zulu] + rest));
    ReadsPrefix(stem, tail, "Z");
    UtcReads(stem);
    ZuluReads(stem, dot, fraction, zulu, rest);
    hide Zone, ZoneAt, ReadFields, AllDigits, InRange, LocalSecs;
  }

  lemma ZuluReads(stem: string, dot: string, fraction: string, zulu: char, rest: string)
    requires |stem| == 19 && AllDigits(fraction) && (dot == "." || (dot == "" && fraction == ""))
    requires zulu == 'Z' || zulu == 'z'
    ensures var b := stem + (dot + (fraction + ([zulu] + rest)));
            |b| >= 20 && Zone(b, ZoneAt(b)) == Some(0)
  {
    var b := stem + (dot + (fraction + ([zulu] + rest)));
    var at := 19 + |dot| + |fraction|;
    assert b[at] == zulu;
    if dot == "." {
      assert b[19] == '.' && b[20..at] == fraction;
      assert forall i :: 20 <= i < at ==> b[i] == fraction[i - 20];
      SkipsAll(b, 20, at);
    }
    assert ZoneAt(b) == at;
  }

  // ---- What the parser accepts -------------------------------------------------------

  /** Six numbers with separators between them. */
  function Written(f: Fields, p: char, q: char, t: char, u: char, v: char): string
  {
    Fixed(f.year, 4) + [p] + Fixed(f.month, 2) + [q] + Fixed(f.day, 2) + [t]
    + Fixed(f.hour, 2) + [u] + Fixed(f.min, 2) + [v] + Fixed(f.sec, 2)
  }

  lemma WrittenSlices(f: Fields, p: char, q: char, t: char, u: char, v: char, rest: string)
    ensures var b := Written(f, p, q, t, u, v) + rest;
            && |Written(f, p, q, t, u, v)| == 19
            && b[4] == p && b[7] == q && b[10] == t && b[13] == u && b[16] == v
            && b[0..4] == Fixed(f.year, 4) && b[5..7] == Fixed(f.month, 2) && b[8..10] == Fixed(f.day, 2)
            && b[11..13] == Fixed(f.hour, 2) && b[14..16] == Fixed(f.min, 2) && b[17..19] == Fixed(f.sec, 2)
  {
    hide Fixed;
  }

  /** For all numbers of the fields' widths and all separators: the time is read exactly
      with hyphens, `T` or `t` and colons, a year from 1 to 9999, a month to 12, a day to
      31, an hour to 23, a minute to 59 and a second to 60; then it is the count of days
      and seconds. */
  lemma FieldsParse(f: Fields, p: char, q: char, t: char, u: char, v: char)
    requires f.year < 10000 && f.month < 100 && f.day < 100 && f.hour < 100 && f.min < 100 && f.sec < 100
    ensures Parse(Written(f, p, q, t, u, v) + "Z") ==
            if && p == '-' && q == '-' && (t == 'T' || t == 't') && u == ':' && v == ':'
               && 1 <= f.year && 1 <= f.month <= 12 && 1 <= f.day <= 31
               && f.hour <= 23 && f.min <= 59 && f.sec <= 60
            then Some(CalendarToDays(Date(f.year, f.month, f.day)) * 86400 + f.hour * 3600 + f.min * 60 + f.sec)
            else None
  {
    WrittenReads(f, p, q, t, u, v, "Z");
    UtcReads(Written(f, p, q, t, u, v));
    hide Written, ReadFields, Zone, ZoneAt, CalendarToDays;
  }

  lemma WrittenReads(f: Fields, p: char, q: char, t: char, u: char, v: char, rest: string)
    requires f.year < 10000 && f.month < 100 && f.day < 100 && f.hour < 100 && f.min < 100 && f.sec < 100
    ensures |Written(f, p, q, t, u, v)| == 19
    ensures ReadFields(Written(f, p, q, t, u, v) + rest) ==
            if p == '-' && q == '-' && (t == 'T' || t == 't') && u == ':' && v == ':' then Some(f) else None
  {
    WrittenSlices(f, p, q, t, u, v, rest);
    Powers();
    hide Written, Fixed, FixedValue, Pow10;
    FixedParses(f.year, 4);
    FixedParses(f.month, 2);
    FixedParses(f.day, 2);
    FixedParses(f.hour, 2);
    FixedParses(f.min, 2);
    FixedParses(f.sec, 2);
  }

  /** A time before 1970 is written as the epoch. */
  lemma BeforeEpochIsEpoch(t: int)
    requires t < 0
    ensures FormatSecs(t) == FormatSecs(0) && FormatMillis(t) == FormatMillis(0)
  {
  }
}
