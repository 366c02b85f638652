/** JavaScript `Date` values as the table code uses them. An instant is a count of
    milliseconds since 1970-01-01 or the invalid date. Local time is taken to be UTC and
    the locale to be en-US; `new Date(string)`, whose accepted formats are left to the
    engine, is a parameter of every operation that calls it. */
module Dates {
  import opened Text

  datatype Instant = Time(ms: int) | InvalidDate

  /** `new Date(s)` for a string s. */
  type DateParser = string -> Instant

  const MsPerDay: int := 86400000

  /** The largest distance from the epoch a valid date may have (section 21.4.1 of ECMA-262). */
  const MaxTime: int := 8640000000000000

  /** Days from 1970-01-01 to the proleptic Gregorian date (y, m, d), for m in 1..12. */
  function DaysFromCivil(y: int, m: int, d: int): int
  {
    var y' := if m <= 2 then y - 1 else y;
    var era := y' / 400;
    var yoe := y' - era * 400;
    var mp := if m > 2 then m - 3 else m + 9;
    var doy := (153 * mp + 2) / 5 + d - 1;
    var doe := yoe * 365 + yoe / 4 - yoe / 100 + doy;
    era * 146097 + doe - 719468
  }

  /** ECMAScript's MakeDay: a month index outside 0..11 carries into the year, and a day of
      month outside the month carries into the neighbouring months. */
  function MakeDay(year: int, monthIndex: int, date: int): int
  {
    var ym := year + monthIndex / 12;
    var mn := monthIndex % 12;
    DaysFromCivil(ym, mn + 1, 1) + date - 1
  }

  /** `new Date(year, monthIndex, date)`: years 0..99 mean 1900..1999. */
  function NewDateFromParts(year: int, monthIndex: int, date: int): (t: Instant)
    ensures t.Time?
  {
    var y := if 0 <= year <= 99 then 1900 + year else year;
    Time(MakeDay(y, monthIndex, date) * MsPerDay)
  }

  datatype Civil = Civil(year: int, month: int, day: int)

  /** The calendar date of a day count; CivilRoundTrip shows it inverts DaysFromCivil. */
  function CivilFromDays(z: int): (c: Civil)
    ensures 1 <= c.month <= 12 && 1 <= c.day <= 31
  {
    var z' := z + 719468;
    var era := z' / 146097;
    CivilInEra(era, z' - era * 146097)
  }

  /** The year (0..399) of a 400-year era, counted from March 1st, in which day doe of the era falls. */
  function YearOfEraOf(doe: int): int
  {
    (doe - doe / 1460 + doe / 36524 - doe / 146096) / 365
  }

  /** The calendar date of day doe of the given 400-year era. */
  function CivilInEra(era: int, doe: int): Civil
  {
    var yoe := YearOfEraOf(doe);
    var y := yoe + era * 400;
    var doy := doe - (365 * yoe + yoe / 4 - yoe / 100);
    var mp := (5 * doy + 2) / 153;
    var d := doy - (153 * mp + 2) / 5 + 1;
    var m := if mp < 10 then mp + 3 else mp - 9;
    Civil(if m <= 2 then y + 1 else y, m, d)
  }

  function DayOf(ms: int): int { ms / MsPerDay }

  function CivilOf(ms: int): Civil { CivilFromDays(DayOf(ms)) }

  /** `new Date(x)` for a number x: TimeClip truncates towards zero and rejects instants
      further than MaxTime from the epoch. */
  function TimeClip(x: real): Instant
  {
    if x > MaxTime as real || x < -(MaxTime as real) then InvalidDate
    else if x >= 0.0 then Time(x.Floor)
    else Time(-((-x).Floor))
  }

  predicate IsLeapYear(y: int)
  {
    y % 4 == 0 && (y % 100 != 0 || y % 400 == 0)
  }

  function DaysInMonth(y: int, m: int): int
  {
    if m == 2 then (if IsLeapYear(y) then 29 else 28)
    else if m == 4 || m == 6 || m == 9 || m == 11 then 30
    else 31
  }

  /** A date of the proleptic Gregorian calendar. */
  predicate IsCalendarDate(y: int, m: int, d: int)
  {
    1 <= m <= 12 && 1 <= d <= DaysInMonth(y, m)
  }

  /** Every calendar date survives the trip to a day count and back. */
  lemma CivilRoundTrip(y: int, m: int, d: int)
    requires IsCalendarDate(y, m, d)
    ensures CivilFromDays(DaysFromCivil(y, m, d)) == Civil(y, m, d)
  {
    var era, yoe, mp, doy, doe := EncodeDate(y, m, d);
    EraOfDate(y, m, d, era, yoe, mp, doy, doe);
    DecodeInEra(era, doe);
  }

  /** Within a month, the day count moves one for one with the day of the month. */
  lemma DaysFromCivilInMonth(y: int, m: int, d: int)
    ensures DaysFromCivil(y, m, d) == DaysFromCivil(y, m, 1) + d - 1
  {
  }

  /** `new Date(year, monthIndex, date)` for a month index in 0..11 and a day of that month
      is midnight of exactly that calendar date (years 0..99 meaning 1900..1999). */
  lemma NewDateFromPartsIsCalendarDate(year: int, monthIndex: int, date: int)
    requires IsCalendarDate(if 0 <= year <= 99 then 1900 + year else year, monthIndex + 1, date)
    ensures NewDateFromParts(year, monthIndex, date).ms % MsPerDay == 0
    ensures CivilOf(NewDateFromParts(year, monthIndex, date).ms)
      == Civil(if 0 <= year <= 99 then 1900 + year else year, monthIndex + 1, date)
  {
    var y := if 0 <= year <= 99 then 1900 + year else year;
    assert monthIndex / 12 == 0 && monthIndex % 12 == monthIndex;
    DaysFromCivilInMonth(y, monthIndex + 1, date);
    MidnightOf(y, monthIndex + 1, date, MakeDay(y, monthIndex, date));
  }

  /** Midnight of the day count of a calendar date lies on a day boundary and falls on that date. */
  lemma MidnightOf(y: int, m: int, d: int, days: int)
    requires IsCalendarDate(y, m, d) && days == DaysFromCivil(y, m, d)
    ensures (days * MsPerDay) % MsPerDay == 0 && CivilOf(days * MsPerDay) == Civil(y, m, d)
  {
    assert DayOf(days * MsPerDay) == days;
    CivilRoundTrip(y, m, d);
  }

  /** The quantities DaysFromCivil computes on the way: era, year of era, March-based month,
      day of year and day of era. */
  lemma EncodeDate(y: int, m: int, d: int) returns (era: int, yoe: int, mp: int, doy: int, doe: int)
    ensures (if m <= 2 then y - 1 else y) == era * 400 + yoe && 0 <= yoe <= 399
    ensures mp == (if m > 2 then m - 3 else m + 9) && doy == (153 * mp + 2) / 5 + d - 1
    ensures doe == yoe * 365 + yoe / 4 - yoe / 100 + doy
    ensures DaysFromCivil(y, m, d) == era * 146097 + doe - 719468
  {
    var y' := if m <= 2 then y - 1 else y;
    era := y' / 400;
    yoe := y' - era * 400;
    mp := if m > 2 then m - 3 else m + 9;
    doy := (153 * mp + 2) / 5 + d - 1;
    doe := yoe * 365 + yoe / 4 - yoe / 100 + doy;
  }

  /** A calendar date's day of era lies inside the era and decodes back to the date. */
  lemma EraOfDate(y: int, m: int, d: int, era: int, yoe: int, mp: int, doy: int, doe: int)
    requires IsCalendarDate(y, m, d)
    requires (if m <= 2 then y - 1 else y) == era * 400 + yoe && 0 <= yoe <= 399
    requires mp == (if m > 2 then m - 3 else m + 9) && doy == (153 * mp + 2) / 5 + d - 1
    requires doe == yoe * 365 + yoe / 4 - yoe / 100 + doy
    ensures 0 <= doe < 146097 && CivilInEra(era, doe) == Civil(y, m, d)
  {
    MonthOfYear(y, m, d);
    LeapInEra(era, yoe);
    YearOfEra(yoe, doy);
    InEraRoundTrip(era, yoe, mp, d, doy, doe);
  }

  /** The day of the (March-based) year of a calendar date, and its decoding back into the
      month and the day; only February 29th of a leap year is day 365. */
  lemma MonthOfYear(y: int, m: int, d: int)
    requires IsCalendarDate(y, m, d)
    ensures var mp := if m > 2 then m - 3 else m + 9;
      var doy := (153 * mp + 2) / 5 + d - 1;
      0 <= doy <= 365 && (doy == 365 ==> m == 2 && d == 29 && IsLeapYear(y))
      && (5 * doy + 2) / 153 == mp && doy - (153 * mp + 2) / 5 + 1 == d
  {
  }

  /** Year yoe of an era, counted from March, ends in February of a leap year exactly when
      yoe + 1 is a leap year of the era. */
  lemma LeapInEra(era: int, yoe: int)
    requires 0 <= yoe <= 399
    ensures IsLeapYear(era * 400 + yoe + 1) <==> yoe % 4 == 3 && (yoe % 100 != 99 || yoe == 399)
  {
  }

  /** The day of era of day doy of year yoe falls inside the era, and YearOfEraOf recovers yoe. */
  lemma YearOfEra(yoe: int, doy: int)
    requires 0 <= yoe <= 399 && 0 <= doy <= 365
    requires doy == 365 ==> yoe % 4 == 3 && (yoe % 100 != 99 || yoe == 399)
    ensures var doe := yoe * 365 + yoe / 4 - yoe / 100 + doy;
      0 <= doe < 146097 && YearOfEraOf(doe) == yoe
  {
    // yoe = 100c + 4q + r: centuries, leap cycles, years since the last leap year
    var c := yoe / 100;
    var q := (yoe % 100) / 4;
    var r := yoe % 4;
    assert yoe == 100 * c + 4 * q + r && 0 <= c <= 3 && 0 <= q <= 24 && 0 <= r <= 3;
    assert yoe / 4 == 25 * c + q && yoe / 100 == c;
    YearOfEraInParts(c, q, r, doy);
  }

  /** YearOfEra with the year of era split into centuries c, four-year cycles q and years r. */
  lemma YearOfEraInParts(c: int, q: int, r: int, doy: int)
    requires 0 <= c <= 3 && 0 <= q <= 24 && 0 <= r <= 3 && 0 <= doy <= 365
    requires doy == 365 ==> r == 3 && (q != 24 || c == 3)
    ensures var doe := 36524 * c + 1461 * q + 365 * r + doy;
      0 <= doe < 146097 && YearOfEraOf(doe) == 100 * c + 4 * q + r
  {
    var t := 1461 * q + 365 * r + doy;
    var u := 24 * c + q + 365 * r + doy;
    var doe := 36524 * c + t;
    assert doe == 1460 * (25 * c + q) + u;
    assert doe / 1460 == if u < 1460 then 25 * c + q else 25 * c + q + 1;
    assert doe / 36524 == if t < 36524 then c else c + 1;
    assert doe / 146096 == if doe < 146096 then 0 else 1;
  }

  /** CivilFromDays of a day inside era `era` is CivilInEra of its day of era. */
  lemma DecodeInEra(era: int, doe: int)
    requires 0 <= doe < 146097
    ensures CivilFromDays(era * 146097 + doe - 719468) == CivilInEra(era, doe)
  {
    assert (era * 146097 + doe) / 146097 == era;
  }

  /** CivilInEra reassembles the date from a day of era whose year, month and day decode. */
  lemma InEraRoundTrip(era: int, yoe: int, mp: int, d: int, doy: int, doe: int)
    requires 0 <= mp <= 11 && doy == (153 * mp + 2) / 5 + d - 1
    requires (5 * doy + 2) / 153 == mp && doy - (153 * mp + 2) / 5 + 1 == d
    requires doe == yoe * 365 + yoe / 4 - yoe / 100 + doy && YearOfEraOf(doe) == yoe
    ensures CivilInEra(era, doe) == Civil(if mp >= 10 then yoe + era * 400 + 1 else yoe + era * 400,
                                          if mp < 10 then mp + 3 else mp - 9, d)
  {
  }

  const MonthAbbreviations: seq<string> :=
    ["Jan", "Feb", "Mar", "Apr", "May", "Jun", "Jul", "Aug", "Sep", "Oct", "Nov", "Dec"]

  /** `toLocaleString("default", { month: "short" })` in en-US. */
  function MonthShortName(t: Instant): string
  {
    match t
    case InvalidDate => "Invalid Date"
    case Time(ms) =>
      MonthAbbreviations[CivilOf(ms).month - 1]
  }

  /** `toLocaleDateString()` in en-US: month/day/year. */
  function LocaleDateString(t: Instant): string
  {
    match t
    case InvalidDate => "Invalid Date"
    case Time(ms) =>
      var c := CivilOf(ms);
      IntToString(c.month) + "/" + IntToString(c.day) + "/" + IntToString(c.year)
  }

  /** Zero-padded decimal text of n in exactly `width` digits when it fits. */
  function PadNat(n: nat, width: nat): (s: string)
    ensures AllDigits(s) && DigitsValue(s) == n
    ensures |NatToString(n)| <= width ==> |s| == width
  {
    var s := NatToString(n);
    if |s| >= width then s
    else
      LeadingZerosValue(width - |s|, s);
      seq(width - |s|, _ => '0') + s
  }

  /** `toISOString().split("T")[0]`: YYYY-MM-DD, with a signed six-digit year outside 0..9999. */
  function IsoDatePart(ms: int): string
  {
    IsoDateText(CivilOf(ms))
  }

  /** The ISO text of a calendar date. */
  function IsoDateText(c: Civil): string
    requires 1 <= c.month <= 12 && 1 <= c.day <= 31
  {
    var year :=
      if 0 <= c.year <= 9999 then PadNat(c.year, 4)
      else if c.year < 0 then "-" + PadNat(-c.year, 6)
      else "+" + PadNat(c.year, 6);
    year + "-" + PadNat(c.month, 2) + "-" + PadNat(c.day, 2)
  }

  /** For a year in 0..9999 the ISO text is ten characters, YYYY-MM-DD, and its digit runs
      read back as the year, the month and the day. */
  lemma IsoDateTextReadsBack(c: Civil)
    requires 0 <= c.year <= 9999 && 1 <= c.month <= 12 && 1 <= c.day <= 31
    ensures var s := IsoDateText(c);
      |s| == 10 && s[4] == '-' && s[7] == '-'
      && AllDigits(s[..4]) && AllDigits(s[5..7]) && AllDigits(s[8..])
      && DigitsValue(s[..4]) == c.year && DigitsValue(s[5..7]) == c.month && DigitsValue(s[8..]) == c.day
  {
    NatToStringLength(c.year);
    NatToStringLength(c.month);
    NatToStringLength(c.day);
    var y, m, d := PadNat(c.year, 4), PadNat(c.month, 2), PadNat(c.day, 2);
    assert |y| == 4 && |m| == 2 && |d| == 2;
    var s := y + "-" + m + "-" + d;
    assert s == y + ['-'] + m + ['-'] + d;
    assert s[..4] == y && s[5..7] == m && s[8..] == d;
  }
}
