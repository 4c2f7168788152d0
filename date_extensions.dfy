/** DateExtensions.cs: range tests, the elapsed-time wording ladder and time
    adjustment on `DateTime`. "Now" is a parameter (a tick count), and the
    culture-dependent text formatting is a parameter too. */
module DateExtensions {
  import opened Wrappers
  import opened Text

  const TicksPerSecond: int := 10_000_000
  const TicksPerMinute: int := 600_000_000
  const TicksPerHour: int := 36_000_000_000
  const TicksPerDay: int := 864_000_000_000

  /** A `DateTime` as its calendar fields; `fraction` is the ticks within the
      second. */
  datatype DateTime = DateTime(year: int, month: int, day: int, hour: int, minute: int, second: int,
                               fraction: int)

  predicate IsLeapYear(y: int) {
    y % 4 == 0 && (y % 100 != 0 || y % 400 == 0)
  }

  function DaysInMonth(y: int, m: int): int
    requires 1 <= m <= 12
  {
    if m == 2 then (if IsLeapYear(y) then 29 else 28)
    else if m == 4 || m == 6 || m == 9 || m == 11 then 30
    else 31
  }

  /** The range `DateTime` accepts, 0001-01-01 to 9999-12-31. */
  predicate Valid(d: DateTime) {
    && 1 <= d.year <= 9999 && 1 <= d.month <= 12 && 1 <= d.day <= DaysInMonth(d.year, d.month)
    && 0 <= d.hour < 24 && 0 <= d.minute < 60 && 0 <= d.second < 60
    && 0 <= d.fraction < TicksPerSecond
  }

  function DaysBeforeMonth(y: int, m: int): int
    requires 1 <= m <= 12
    decreases m
  {
    if m == 1 then 0 else DaysBeforeMonth(y, m - 1) + DaysInMonth(y, m - 1)
  }

  /** Days from 0001-01-01 to the start of the day. */
  function DayNumber(d: DateTime): int
    requires Valid(d)
  {
    var y := d.year - 1;
    365 * y + y / 4 - y / 100 + y / 400 + DaysBeforeMonth(d.year, d.month) + d.day - 1
  }

  /** Ticks since midnight. */
  function TimeOfDay(d: DateTime): (t: int)
    requires Valid(d)
    ensures 0 <= t < TicksPerDay
  {
    ((d.hour * 60 + d.minute) * 60 + d.second) * TicksPerSecond + d.fraction
  }

  /** `DateTime.Ticks`. */
  function Ticks(d: DateTime): int
    requires Valid(d)
  {
    DayNumber(d) * TicksPerDay + TimeOfDay(d)
  }

  // ---------------------------------------------------------------------------
  // IsBetweenDates
  // ---------------------------------------------------------------------------

  /** `IsBetweenDates(date, startDate, endDate)`: both ends included. */
  predicate IsBetweenDates(date: DateTime, startDate: DateTime, endDate: DateTime): (r: bool)
    requires Valid(date) && Valid(startDate) && Valid(endDate)
    ensures r ==> Ticks(startDate) <= Ticks(endDate)
    ensures Ticks(startDate) == Ticks(endDate) ==> (r <==> Ticks(date) == Ticks(startDate))
  {
    Ticks(date) >= Ticks(startDate) && Ticks(date) <= Ticks(endDate)
  }

  /** Both ends are inside the range when it is not empty; a range whose start
      is after its end holds no date; a date is between itself and itself. */
  lemma IsBetweenDatesProperties(date: DateTime, startDate: DateTime, endDate: DateTime)
    requires Valid(date) && Valid(startDate) && Valid(endDate)
    ensures Ticks(startDate) > Ticks(endDate) ==> !IsBetweenDates(date, startDate, endDate)
    ensures Ticks(startDate) <= Ticks(endDate) ==>
              IsBetweenDates(startDate, startDate, endDate) && IsBetweenDates(endDate, startDate, endDate)
    ensures IsBetweenDates(date, date, date)
  {
  }

  // ---------------------------------------------------------------------------
  // ToElapsedTimeInWords
  // ---------------------------------------------------------------------------

  /** The rungs of the wording ladder, in order. */
  datatype Bucket = JustNow | AMinute | Minutes | AnHour | Hours | Yesterday | Days | Months | Years

  function Rank(b: Bucket): nat {
    match b
    case JustNow => 0 case AMinute => 1 case Minutes => 2 case AnHour => 3 case Hours => 4
    case Yesterday => 5 case Days => 6 case Months => 7 case Years => 8
  }

  /** Where each rung starts, in seconds. */
  function LowerSeconds(b: Bucket): nat {
    match b
    case JustNow => 0 case AMinute => 60 case Minutes => 120 case AnHour => 3600 case Hours => 7200
    case Yesterday => 86400 case Days => 172800 case Months => 2592000 case Years => 31104000
  }

  /** The rung for an elapsed time of `absTicks` ticks: `delta` is the
      absolute total seconds, compared with each threshold in turn. */
  function BucketOf(absTicks: nat): (b: Bucket)
    ensures LowerSeconds(b) * TicksPerSecond <= absTicks
    ensures b != Years ==> absTicks < LowerSeconds(NextBucket(b)) * TicksPerSecond
  {
    if absTicks < 60 * TicksPerSecond then JustNow
    else if absTicks < 120 * TicksPerSecond then AMinute
    else if absTicks < 3600 * TicksPerSecond then Minutes
    else if absTicks < 7200 * TicksPerSecond then AnHour
    else if absTicks < 86400 * TicksPerSecond then Hours
    else if absTicks < 172800 * TicksPerSecond then Yesterday
    else if absTicks < 2592000 * TicksPerSecond then Days
    else if absTicks < 31104000 * TicksPerSecond then Months
    else Years
  }

  function NextBucket(b: Bucket): Bucket
    requires b != Years
  {
    match b
    case JustNow => AMinute case AMinute => Minutes case Minutes => AnHour case AnHour => Hours
    case Hours => Yesterday case Yesterday => Days case Days => Months case Months => Years
  }

  /** Each elapsed time falls on exactly one rung: the one whose interval
      holds it. */
  lemma BucketUnique(absTicks: nat, b: Bucket)
    ensures BucketOf(absTicks) == b <==>
              LowerSeconds(b) * TicksPerSecond <= absTicks
              && (b != Years ==> absTicks < LowerSeconds(NextBucket(b)) * TicksPerSecond)
  {
  }

  /** The starting points grow with the rank. */
  lemma LowerOrdered(a: Bucket, b: Bucket)
    requires Rank(a) <= Rank(b)
    ensures LowerSeconds(a) <= LowerSeconds(b)
  {
  }

  /** The ladder is monotone: a longer elapsed time never lands on an
      earlier rung. */
  lemma BucketMonotone(x: nat, y: nat)
    requires x <= y
    ensures Rank(BucketOf(x)) <= Rank(BucketOf(y))
  {
    var bx, bY := BucketOf(x), BucketOf(y);
    if Rank(bY) < Rank(bx) {
      assert bY != Years;
      LowerOrdered(NextBucket(bY), bx);
    }
  }

  function Abs(x: int): nat { if x < 0 then -x else x }

  /** The wording for a `TimeSpan` of `ticks` (now minus the end time):
      `Minutes`, `Hours` and `Days` are the span's signed components, and the
      month and year counts are `Math.Floor` of the days over 30 and 365. */
  function ElapsedWords(ticks: int): (r: string)
    ensures r != ""
  {
    Wording(BucketOf(Abs(ticks)), TruncRem(TruncDiv(ticks, TicksPerMinute), 60),
            TruncRem(TruncDiv(ticks, TicksPerHour), 24), TruncDiv(ticks, TicksPerDay))
  }

  /** The words for rung `b`, given the span's minutes, hours and days. */
  function Wording(b: Bucket, minutes: int, hours: int, days: int): (r: string)
    ensures r != ""
  {
    match b
    case JustNow => "just now"
    case AMinute => "a minute ago"
    case Minutes => IntToString(minutes) + " minutes ago"
    case AnHour => "an hour ago"
    case Hours => IntToString(hours) + " hours ago"
    case Yesterday => "yesterday"
    case Days => IntToString(days) + " days ago"
    case Months => if days / 30 <= 1 then "one month ago" else IntToString(days / 30) + " months ago"
    case Years => if days / 365 <= 1 then "one year ago" else IntToString(days / 365) + " years ago"
  }

  /** Every rung but "just now" and "yesterday" is worded as a time ago. */
  lemma ElapsedWordsAgo(ticks: int)
    ensures EndsWith(ElapsedWords(ticks), " ago") <==> BucketOf(Abs(ticks)) !in {JustNow, Yesterday}
    ensures BucketOf(Abs(ticks)) == JustNow <==> ElapsedWords(ticks) == "just now"
    ensures BucketOf(Abs(ticks)) == Yesterday <==> ElapsedWords(ticks) == "yesterday"
  {
    WordingAgo(BucketOf(Abs(ticks)), TruncRem(TruncDiv(ticks, TicksPerMinute), 60),
               TruncRem(TruncDiv(ticks, TicksPerHour), 24), TruncDiv(ticks, TicksPerDay));
  }

  lemma WordingAgo(b: Bucket, minutes: int, hours: int, days: int)
    ensures EndsWith(Wording(b, minutes, hours, days), " ago") <==> b !in {JustNow, Yesterday}
    ensures b == JustNow <==> Wording(b, minutes, hours, days) == "just now"
    ensures b == Yesterday <==> Wording(b, minutes, hours, days) == "yesterday"
  {
    var w := Wording(b, minutes, hours, days);
    match b
    case JustNow =>
      assert w == "just now";
      PlainWording(w);
    case Yesterday =>
      assert w == "yesterday";
      PlainWording(w);
    case AMinute =>
      assert w == "a minute ago";
      PlainWording(w);
    case AnHour =>
      assert w == "an hour ago";
      PlainWording(w);
    case Minutes =>
      AgoSuffix(IntToString(minutes), " minutes ago");
    case Hours =>
      AgoSuffix(IntToString(hours), " hours ago");
    case Days =>
      AgoSuffix(IntToString(days), " days ago");
    case Months =>
      var n := days / 30;
      if n <= 1 {
        assert w == "one month ago";
        PlainWording(w);
      } else {
        AgoSuffix(IntToString(n), " months ago");
      }
    case Years =>
      var n := days / 365;
      if n <= 1 {
        assert w == "one year ago";
        PlainWording(w);
      } else {
        AgoSuffix(IntToString(n), " years ago");
      }
  }

  /** The fixed wordings, and which of them end in " ago". */
  lemma PlainWording(w: string)
    requires w in {"just now", "yesterday", "a minute ago", "an hour ago", "one month ago", "one year ago"}
    ensures EndsWith(w, " ago") <==> w !in {"just now", "yesterday"}
  {
  }

  /** A count followed by a unit and " ago" ends in " ago", and is neither of
      the two wordings without it. */
  lemma AgoSuffix(count: string, unitAgo: string)
    requires unitAgo in {" minutes ago", " hours ago", " days ago", " months ago", " years ago"}
    ensures EndsWith(count + unitAgo, " ago")
    ensures count + unitAgo != "just now" && count + unitAgo != "yesterday"
  {
    var r := count + unitAgo;
    assert unitAgo[|unitAgo| - 4..] == " ago";
    assert r[|r| - 4..] == unitAgo[|unitAgo| - 4..];
    assert r[|r| - 1] == 'o' && "just now"[7] == 'w' && "yesterday"[8] == 'y';
  }


  /** `ToElapsedTimeInWords(this DateTime? endDateTime)`, measured against
      `now`: null gives the empty string. */
  function ToElapsedTimeInWords(endDateTime: Option<DateTime>, now: DateTime): (r: string)
    requires endDateTime.Some? ==> Valid(endDateTime.value)
    requires Valid(now)
    ensures endDateTime.None? <==> r == ""
  {
    match endDateTime
    case None => ""
    case Some(e) => ElapsedWords(Ticks(now) - Ticks(e))
  }

  /** For an end time in the past, the counted rungs show the whole minutes,
      hours and days elapsed, and a month or more is counted in 30-day months
      and a year or more in 365-day years. */
  lemma WordsInThePast(ticks: nat)
    ensures BucketOf(ticks) == Minutes ==>
              ElapsedWords(ticks) == NatToString(ticks / TicksPerMinute) + " minutes ago"
              && 2 <= ticks / TicksPerMinute < 60
    ensures BucketOf(ticks) == Hours ==>
              ElapsedWords(ticks) == NatToString(ticks / TicksPerHour) + " hours ago"
              && 2 <= ticks / TicksPerHour < 24
    ensures BucketOf(ticks) == Days ==>
              ElapsedWords(ticks) == NatToString(ticks / TicksPerDay) + " days ago"
              && 2 <= ticks / TicksPerDay < 30
    ensures BucketOf(ticks) == Months ==>
              (ElapsedWords(ticks) == "one month ago" <==> ticks / TicksPerDay < 60)
    ensures BucketOf(ticks) == Years ==>
              (ElapsedWords(ticks) == "one year ago" <==> ticks / TicksPerDay < 730)
  {
    var b := BucketOf(ticks);
    if b == Minutes {
      MinutesBelowHour(ticks);
    } else if b == Hours {
      HoursBelowDay(ticks);
    } else if b == Months {
      var days := ticks / TicksPerDay;
      if days / 30 > 1 {
        assert ElapsedWords(ticks) == NatToString(days / 30) + " months ago";
        assert ElapsedWords(ticks)[0] != 'o' by { NatToStringFirstDigit(days / 30); }
      }
    } else if b == Years {
      var days := ticks / TicksPerDay;
      if days / 365 > 1 {
        assert ElapsedWords(ticks) == NatToString(days / 365) + " years ago";
        assert ElapsedWords(ticks)[0] != 'o' by { NatToStringFirstDigit(days / 365); }
      }
    }
  }

  lemma NatToStringFirstDigit(n: nat)
    ensures IsDigit(NatToString(n)[0])
  {
  }

  lemma MinutesBelowHour(ticks: nat)
    requires 120 * TicksPerSecond <= ticks < 3600 * TicksPerSecond
    ensures 2 <= ticks / TicksPerMinute < 60
    ensures TruncRem(TruncDiv(ticks, TicksPerMinute), 60) == ticks / TicksPerMinute
  {
  }

  lemma HoursBelowDay(ticks: nat)
    requires 7200 * TicksPerSecond <= ticks < 86400 * TicksPerSecond
    ensures 2 <= ticks / TicksPerHour < 24
    ensures TruncRem(TruncDiv(ticks, TicksPerHour), 24) == ticks / TicksPerHour
  {
  }

  // ---------------------------------------------------------------------------
  // Formatting and AdjustTime
  // ---------------------------------------------------------------------------

  /** `ToFormat_MM_dd_yy_hh_mm_ss_tt(this DateTime? datetime, defaultValue)`;
      `format` is `DateTime.ToString("MM/dd/yy hh:mm:ss tt")` in the current
      culture. */
  function ToFormatOrDefault(datetime: Option<DateTime>, defaultValue: string, format: DateTime -> string): (r: string)
    ensures datetime.None? ==> r == defaultValue
    ensures datetime.Some? ==> r == format(datetime.value)
  {
    match datetime
    case None => defaultValue
    case Some(d) => format(d)
  }

  /** `AdjustTime(date, hour, minute, second)`: null stays null; otherwise
      `new DateTime(Year, Month, Day, hour, minute, second)`, which rejects a
      time outside the day with `ArgumentOutOfRangeException`. */
  function AdjustTime(date: Option<DateTime>, hour: int, minute: int, second: int): (r: Result<Option<DateTime>>)
    requires date.Some? ==> Valid(date.value)
    ensures r.Ok? && r.value.Some? ==> Valid(r.value.value)
  {
    match date
    case None => Ok(None)
    case Some(d) =>
      if 0 <= hour < 24 && 0 <= minute < 60 && 0 <= second < 60 then
        Ok(Some(DateTime(d.year, d.month, d.day, hour, minute, second, 0)))
      else Err(ArgumentOutOfRange)
  }

  /** Null stays null; a valid time keeps the calendar day, moves the instant
      to that time of the same day and drops the fraction of a second; an
      invalid time throws; adjusting again to the same time changes nothing. */
  lemma AdjustTimeProperties(date: Option<DateTime>, hour: int, minute: int, second: int)
    requires date.Some? ==> Valid(date.value)
    ensures date.None? ==> AdjustTime(date, hour, minute, second) == Ok(None)
    ensures date.Some? && AdjustTime(date, hour, minute, second).Ok? ==>
              var d, a := date.value, AdjustTime(date, hour, minute, second).value.value;
              && a.year == d.year && a.month == d.month && a.day == d.day
              && a.hour == hour && a.minute == minute && a.second == second
              && Ticks(a) == Ticks(d) - TimeOfDay(d) + ((hour * 60 + minute) * 60 + second) * TicksPerSecond
              && DayNumber(a) == DayNumber(d)
              && AdjustTime(Some(a), hour, minute, second) == Ok(Some(a))
    ensures (AdjustTime(date, hour, minute, second).Err? <==>
              date.Some? && !(0 <= hour < 24 && 0 <= minute < 60 && 0 <= second < 60))
  {
  }
}
