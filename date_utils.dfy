/**
 * date-utils.js: choosing the time zone that governs daily-note dates
 * (`resolveTimeZone`) and computing the date string of the daily note a whole number
 * of days from a reference instant (`createDailyNoteFormatter`, whose returned closure
 * `formatDailyNoteDate` is modelled as a function of the bound configuration).
 */
module DateUtils {
  import opened Wrappers
  import opened Calendar
  import opened Intl

  /** The zone used when the host reports no default zone. */
  const UtcZone: string := "UTC"

  /** The message of the error thrown when the formatted parts lack a finite field. */
  const UndeterminedMessage: string := "Unable to determine calendar date components"

  /** The message of the `RangeError` thrown when a Date holds no valid time value. */
  const InvalidTimeValueMessage: string := "Invalid time value"

  /** The record `resolveTimeZone` returns; `None` stands for an absent or undefined property. */
  datatype TimeZoneResolution = TimeZoneResolution(
    effectiveTimeZone: string,
    requestedTimeZone: Option<string>,
    fallbackTimeZone: string,
    isFallback: bool,
    locale: string,
    error: Option<string>)

  /** `requestedTimeZone` is truthy: present and not the empty string. */
  predicate IsRequested(requested: Option<string>) {
    requested.Some? && requested.value != ""
  }

  /** The host's default zone, or "UTC" when the host reports none. */
  function FallbackTimeZone(host: Host): (z: string)
    ensures z != ""
    ensures host.systemZone != "" ==> z == host.systemZone
    ensures host.systemZone == "" ==> z == UtcZone
  {
    if host.systemZone != "" then host.systemZone else UtcZone
  }

  /**
   * `resolveTimeZone(requestedTimeZone, locale)`. A requested zone is valid when a
   * formatter for it and `locale` can be built and used; otherwise the resolution falls
   * back and records the error instead of throwing. It never fails.
   */
  function ResolveTimeZone(host: Host, requested: Option<string>, locale: string)
    : (r: TimeZoneResolution)
    ensures r.fallbackTimeZone == FallbackTimeZone(host) && r.locale == locale
    ensures r.isFallback <==> IsRequested(requested) && !host.accepts(requested.value, locale)
    ensures r.error.Some? <==> r.isFallback
    ensures r.effectiveTimeZone != ""
    ensures r.effectiveTimeZone == r.fallbackTimeZone
      || (requested.Some? && r.effectiveTimeZone == requested.value)
  {
    var fallback := FallbackTimeZone(host);
    if !IsRequested(requested) then
      TimeZoneResolution(fallback, None, fallback, false, locale, None)
    else if host.accepts(requested.value, locale) then
      TimeZoneResolution(requested.value, requested, fallback, false, locale, None)
    else
      TimeZoneResolution(fallback, requested, fallback, true, locale,
        Some(host.rejection(requested.value, locale)))
  }

  /** With no zone requested the fallback zone is used, and that is not a fallback. */
  lemma ResolveWithoutRequest(host: Host, requested: Option<string>, locale: string)
    requires !IsRequested(requested)
    ensures var r := ResolveTimeZone(host, requested, locale);
      r.effectiveTimeZone == FallbackTimeZone(host) && !r.isFallback
      && r.requestedTimeZone.None? && r.error.None?
  {
  }

  /** A zone the host accepts with the locale is used as requested. */
  lemma ResolveAcceptedZone(host: Host, tz: string, locale: string)
    requires tz != "" && host.accepts(tz, locale)
    ensures var r := ResolveTimeZone(host, Some(tz), locale);
      r.effectiveTimeZone == tz && !r.isFallback && r.requestedTimeZone == Some(tz)
      && r.error.None?
  {
  }

  /** A zone the host rejects falls back, keeps the request and carries the host's error. */
  lemma ResolveRejectedZone(host: Host, tz: string, locale: string)
    requires tz != "" && !host.accepts(tz, locale)
    ensures var r := ResolveTimeZone(host, Some(tz), locale);
      r.effectiveTimeZone == FallbackTimeZone(host) && r.isFallback
      && r.requestedTimeZone == Some(tz) && r.error == Some(host.rejection(tz, locale))
  {
  }

  /** When the host accepts its own fallback zone, the effective zone is always usable. */
  lemma EffectiveZoneUsable(host: Host, requested: Option<string>, locale: string)
    requires host.accepts(FallbackTimeZone(host), locale)
    ensures host.accepts(ResolveTimeZone(host, requested, locale).effectiveTimeZone, locale)
  {
  }

  /** The configuration a daily-note formatter closes over. */
  datatype DailyNoteFormatter = DailyNoteFormatter(timeZone: string, locale: string)

  /** What the formatter or its construction throws. */
  datatype DateError = RangeError(message: string) | DateComponentsError {
    function Message(): string {
      match this
      case RangeError(m) => m
      case DateComponentsError => UndeterminedMessage
    }
  }

  /** `createDailyNoteFormatter(timeZone, locale)`: building the bound formatter may throw. */
  function CreateDailyNoteFormatter(host: Host, tz: string, locale: string)
    : (r: Result<DailyNoteFormatter, DateError>)
    ensures r.Ok? <==> host.accepts(tz, locale)
    ensures r.Ok? ==> r.value == DailyNoteFormatter(tz, locale)
    ensures r.Err? ==> r.error == RangeError(host.rejection(tz, locale))
  {
    if host.accepts(tz, locale) then Ok(DailyNoteFormatter(tz, locale))
    else Err(RangeError(host.rejection(tz, locale)))
  }

  /** A JavaScript Date: either invalid or holding a time value within the clipped range. */
  type TimeMs = t: int | InTimeRange(t)

  datatype DateValue = InvalidDate | TimeValue(ms: TimeMs)

  /** `new Date(t)` for an integral `t`: TimeClip of section 21.4.1.31. */
  function TimeClip(t: int): (d: DateValue)
    ensures d.TimeValue? <==> InTimeRange(t)
    ensures d.TimeValue? ==> d.ms == t
  {
    if InTimeRange(t) then TimeValue(t) else InvalidDate
  }

  /**
   * `Date.UTC(year, month, date)` on integers (ECMA-262 section 21.4.3.4): a year from 0
   * to 99 means 1900 to 1999; the month counts from 0.
   */
  function DateUtc(year: int, month: int, date: int): DateValue {
    var fullYear := if 0 <= year <= 99 then 1900 + year else year;
    TimeClip(MakeDate(MakeDay(fullYear, month, date)))
  }

  /**
   * The closure `formatDailyNoteDate(date, offsetDays)` of a formatter built for
   * `f.timeZone` and `f.locale`, as date-utils.js writes it: the calendar fields of
   * `date` in the zone, shifted by `offsetDays` through `Date.UTC`, and the resulting
   * instant formatted again by the same zone-bound formatter.
   */
  function FormatDailyNoteDate(host: Host, f: DailyNoteFormatter, date: DateValue, offsetDays: int)
    : Result<string, DateError>
  {
    match date
    case InvalidDate => Err(RangeError(InvalidTimeValueMessage))
    case TimeValue(t) =>
      match ExtractFields(host.parts(f.timeZone, f.locale, t))
      case None => Err(DateComponentsError)
      case Some(c) =>
        match DateUtc(c.year, c.month - 1, c.day + offsetDays)
        case InvalidDate => Err(RangeError(InvalidTimeValueMessage))
        case TimeValue(u) => Ok(Join(host.parts(f.timeZone, f.locale, u)))
  }

  /**
   * How the formatter as written fails and what it returns: an invalid Date is a
   * `RangeError`, parts without three finite fields are the components error, and a
   * result is always the bound formatter's rendering of some valid instant.
   */
  lemma FormatOutcomes(host: Host, f: DailyNoteFormatter, date: DateValue, offsetDays: int)
    ensures var r := FormatDailyNoteDate(host, f, date, offsetDays);
      (r == Err(DateComponentsError) <==>
        date.TimeValue? && ExtractFields(host.parts(f.timeZone, f.locale, date.ms)).None?)
      && (date.InvalidDate? ==> r == Err(RangeError(InvalidTimeValueMessage)))
      && (r.Ok? ==> exists u: TimeMs :: r.value == Join(host.parts(f.timeZone, f.locale, u)))
  {
  }

  /** The local calendar date of an instant in a zone, by the host's time-zone database. */
  function LocalDate(host: Host, tz: string, t: int): (c: Civil)
    ensures ValidCivil(c)
  {
    CivilFromDay(host.localDay(tz, t))
  }

  /** On a host that renders `en-CA` as described, the parts show the local date. */
  lemma LocalParts(host: Host, tz: string, t: int)
    requires RendersEnCa(host) && host.accepts(tz, DefaultLocale)
    ensures host.parts(tz, DefaultLocale, t) == EnCaParts(LocalDate(host, tz, t))
    ensures Join(host.parts(tz, DefaultLocale, t)) == EnCaString(LocalDate(host, tz, t))
  {
    JoinEnCaParts(LocalDate(host, tz, t));
  }

  /** ... and reading them back gives the local date, for years of the common era. */
  lemma ExtractLocalDate(host: Host, tz: string, t: int)
    requires RendersEnCa(host) && host.accepts(tz, DefaultLocale)
    requires LocalDate(host, tz, t).year >= 1
    ensures ExtractFields(host.parts(tz, DefaultLocale, t)) == Some(LocalDate(host, tz, t))
  {
    LocalParts(host, tz, t);
    ExtractEnCaParts(LocalDate(host, tz, t));
  }

  /** The formatter after a successful extraction of the fields `c`. */
  lemma FormatAfterExtraction(host: Host, f: DailyNoteFormatter, t: TimeMs, offsetDays: int, c: Civil)
    requires ExtractFields(host.parts(f.timeZone, f.locale, t)) == Some(c)
    ensures FormatDailyNoteDate(host, f, TimeValue(t), offsetDays)
      == match DateUtc(c.year, c.month - 1, c.day + offsetDays)
         case InvalidDate => Err(RangeError(InvalidTimeValueMessage))
         case TimeValue(u) => Ok(Join(host.parts(f.timeZone, f.locale, u)))
  {
  }

  /** `Date.UTC` of a real date with a year from 100 on, shifted by whole days. */
  lemma DateUtcOfDate(c: Civil, offsetDays: int)
    requires ValidCivil(c) && c.year >= 100
    ensures DateUtc(c.year, c.month - 1, c.day + offsetDays)
      == TimeClip(MakeDate(DayFromCivil(c) + offsetDays))
  {
    MakeDayShift(c, offsetDays);
  }

  /** `Date.UTC` reads a year from 0 to 99 as a year of the twentieth century. */
  lemma DateUtcTwoDigitYear(year: int, month: int, date: int, n: int)
    requires 0 <= year <= 99 && n == MakeDay(year + 1900, month, date)
    ensures DateUtc(year, month, date) == TimeClip(MakeDate(n))
  {
  }

  /**
   * When `Date.UTC` of the shifted fields `c` is midnight of day `n`, the formatter
   * returns the local date of that midnight in its own zone.
   */
  lemma FormatRendersDay(host: Host, tz: string, t: TimeMs, offsetDays: int, c: Civil, n: int)
    requires RendersEnCa(host) && host.accepts(tz, DefaultLocale)
    requires ExtractFields(host.parts(tz, DefaultLocale, t)) == Some(c)
    requires DateUtc(c.year, c.month - 1, c.day + offsetDays) == TimeClip(MakeDate(n))
    ensures FormatDailyNoteDate(host, DailyNoteFormatter(tz, DefaultLocale), TimeValue(t), offsetDays)
      == if InTimeRange(MakeDate(n)) then Ok(EnCaString(LocalDate(host, tz, MakeDate(n))))
         else Err(RangeError(InvalidTimeValueMessage))
  {
    FormatAfterExtraction(host, DailyNoteFormatter(tz, DefaultLocale), t, offsetDays, c);
    LocalParts(host, tz, MakeDate(n));
  }

  /**
   * On a host that renders `en-CA` as described, the formatter as written returns the
   * local date, in its own zone, of UTC midnight of the day `offsetDays` after the local
   * date of the reference instant (years from 100 on, where `Date.UTC` keeps the year).
   */
  lemma FormatRendersUtcMidnightInZone(host: Host, tz: string, t: TimeMs, offsetDays: int)
    requires RendersEnCa(host) && host.accepts(tz, DefaultLocale)
    requires LocalDate(host, tz, t).year >= 100
    ensures var n := DayFromCivil(LocalDate(host, tz, t)) + offsetDays;
      FormatDailyNoteDate(host, DailyNoteFormatter(tz, DefaultLocale), TimeValue(t), offsetDays)
      == if InTimeRange(MakeDate(n)) then Ok(EnCaString(LocalDate(host, tz, MakeDate(n))))
         else Err(RangeError(InvalidTimeValueMessage))
  {
    var c := LocalDate(host, tz, t);
    var n := DayFromCivil(c) + offsetDays;
    ExtractLocalDate(host, tz, t);
    DateUtcOfDate(c, offsetDays);
    FormatRendersDay(host, tz, t, offsetDays, c, n);
  }

  /**
   * On such a host, for a year from 1 to 99 `Date.UTC` moves the date into the
   * twentieth century before formatting.
   */
  lemma FormatShiftsTwoDigitYears(host: Host, tz: string, t: TimeMs, offsetDays: int)
    requires RendersEnCa(host) && host.accepts(tz, DefaultLocale)
    requires 1 <= LocalDate(host, tz, t).year <= 99
    ensures var c := LocalDate(host, tz, t);
      var n := MakeDay(c.year + 1900, c.month - 1, c.day + offsetDays);
      FormatDailyNoteDate(host, DailyNoteFormatter(tz, DefaultLocale), TimeValue(t), offsetDays)
      == if InTimeRange(MakeDate(n)) then Ok(EnCaString(LocalDate(host, tz, MakeDate(n))))
         else Err(RangeError(InvalidTimeValueMessage))
  {
    var c := LocalDate(host, tz, t);
    var n := MakeDay(c.year + 1900, c.month - 1, c.day + offsetDays);
    ExtractLocalDate(host, tz, t);
    DateUtcTwoDigitYear(c.year, c.month - 1, c.day + offsetDays, n);
    FormatRendersDay(host, tz, t, offsetDays, c, n);
  }

  /**
   * Where UTC midnight of every day falls on that same day in the zone (UTC itself, and
   * zones east of UTC), the formatter as written is right: it returns the local date of
   * the reference instant moved `offsetDays` calendar days, or a `RangeError` when that
   * date is out of range.
   */
  lemma AsWrittenIsCalendarShiftInUtc(host: Host, tz: string, t: TimeMs, offsetDays: int)
    requires RendersEnCa(host) && host.accepts(tz, DefaultLocale)
    requires forall n: int :: host.localDay(tz, MakeDate(n)) == n
    requires LocalDate(host, tz, t).year >= 100
    ensures var c := LocalDate(host, tz, t);
      FormatDailyNoteDate(host, DailyNoteFormatter(tz, DefaultLocale), TimeValue(t), offsetDays)
      == if InTimeRange(MakeDate(DayFromCivil(c) + offsetDays)) then Ok(EnCaString(AddDays(c, offsetDays)))
         else Err(RangeError(InvalidTimeValueMessage))
  {
    var c := LocalDate(host, tz, t);
    var n := DayFromCivil(c) + offsetDays;
    FormatRendersUtcMidnightInZone(host, tz, t, offsetDays);
    OwnDayIsAddDays(host, tz, c, offsetDays, n,
      FormatDailyNoteDate(host, DailyNoteFormatter(tz, DefaultLocale), TimeValue(t), offsetDays));
  }

  /**
   * The result for UTC midnight of day `n`, when that midnight is local day `n`. A proof
   * step: the result `r` and the day `n` are parameters so that the caller's goal is an
   * instance of this ensures, which keeps the caller's proof small.
   */
  lemma OwnDayIsAddDays(host: Host, tz: string, c: Civil, offsetDays: int, n: int,
                        r: Result<string, DateError>)
    requires ValidCivil(c) && n == DayFromCivil(c) + offsetDays
    requires host.localDay(tz, MakeDate(n)) == n
    requires r == if InTimeRange(MakeDate(n)) then Ok(EnCaString(LocalDate(host, tz, MakeDate(n))))
      else Err(RangeError(InvalidTimeValueMessage))
    ensures r == if InTimeRange(MakeDate(n)) then Ok(EnCaString(AddDays(c, offsetDays)))
      else Err(RangeError(InvalidTimeValueMessage))
  {
    ShiftIsAddDays(c, offsetDays, n);
  }

  /**
   * From year 100 on, where both closures hand `Date.UTC` the same year, the corrected
   * closure throws the out-of-range `RangeError` exactly when the one written does.
   */
  lemma CorrectedRangeErrorAsWritten(host: Host, tz: string, t: TimeMs, offsetDays: int)
    requires RendersEnCa(host) && host.accepts(tz, DefaultLocale)
    requires LocalDate(host, tz, t).year >= 100
    ensures var f := DailyNoteFormatter(tz, DefaultLocale);
      var r := FormatDailyNoteDateCorrected(host, f, TimeValue(t), offsetDays);
      var w := FormatDailyNoteDate(host, f, TimeValue(t), offsetDays);
      (r.Err? <==> w.Err?) && (r.Err? ==> r == w == Err(RangeError(InvalidTimeValueMessage)))
  {
    CorrectedIsCalendarShift(host, tz, t, offsetDays);
    FormatRendersUtcMidnightInZone(host, tz, t, offsetDays);
  }

  /**
   * The daily-note date as intended: the same field extraction and the same day-offset
   * normalisation, but the normalised calendar date is rendered as the `en-CA`
   * formatter renders it in UTC, and years before 100 are not remapped.
   */
  function FormatDailyNoteDateCorrected(host: Host, f: DailyNoteFormatter, date: DateValue,
                                         offsetDays: int)
    : Result<string, DateError>
  {
    match date
    case InvalidDate => Err(RangeError(InvalidTimeValueMessage))
    case TimeValue(t) =>
      match ExtractFields(host.parts(f.timeZone, f.locale, t))
      case None => Err(DateComponentsError)
      case Some(c) => RenderShifted(c, offsetDays)
  }

  /** The corrected formatter fails in the same ways as the one written. */
  lemma CorrectedOutcomes(host: Host, f: DailyNoteFormatter, date: DateValue, offsetDays: int)
    ensures var r := FormatDailyNoteDateCorrected(host, f, date, offsetDays);
      (r == Err(DateComponentsError) <==>
        date.TimeValue? && ExtractFields(host.parts(f.timeZone, f.locale, date.ms)).None?)
      && (date.InvalidDate? ==> r == Err(RangeError(InvalidTimeValueMessage)))
  {
  }

  /** Day number `n` rendered in the `en-CA` form, or a `RangeError` beyond the range. */
  function RenderDay(n: int): Result<string, DateError> {
    if InTimeRange(MakeDate(n)) then Ok(EnCaString(CivilFromDay(n)))
    else Err(RangeError(InvalidTimeValueMessage))
  }

  /** `Date.UTC` of the fields `c`, `offsetDays` days on, as a day number, then rendered. */
  function RenderShifted(c: Civil, offsetDays: int): Result<string, DateError> {
    RenderDay(MakeDay(c.year, c.month - 1, c.day + offsetDays))
  }

  /**
   * For a real date, the shift renders the date `offsetDays` calendar days later, or
   * throws when `Date.UTC` gives a time value beyond the range.
   */
  lemma RenderShiftedIsAddDays(c: Civil, offsetDays: int)
    requires ValidCivil(c)
    ensures var n := DayFromCivil(c) + offsetDays;
      RenderShifted(c, offsetDays)
      == if InTimeRange(MakeDate(n)) then Ok(EnCaString(AddDays(c, offsetDays)))
         else Err(RangeError(InvalidTimeValueMessage))
  {
    RenderShiftedAtDay(c, offsetDays);
    RenderDayIsAddDays(c, offsetDays, DayFromCivil(c) + offsetDays);
  }

  /** The normalised fields of a real date, `offsetDays` days on, are day `DayFromCivil(c) + offsetDays`. */
  lemma RenderShiftedAtDay(c: Civil, offsetDays: int)
    requires ValidCivil(c)
    ensures RenderShifted(c, offsetDays) == RenderDay(DayFromCivil(c) + offsetDays)
  {
    MakeDayShift(c, offsetDays);
  }

  /** Day number `n`, `offsetDays` days after the date `c`, renders as `AddDays` says. */
  lemma RenderDayIsAddDays(c: Civil, offsetDays: int, n: int)
    requires ValidCivil(c) && n == DayFromCivil(c) + offsetDays
    ensures RenderDay(n) == if InTimeRange(MakeDate(n)) then Ok(EnCaString(AddDays(c, offsetDays)))
         else Err(RangeError(InvalidTimeValueMessage))
  {
    ShiftIsAddDays(c, offsetDays, n);
    RenderedAs(RenderDay(n), n, n, AddDays(c, offsetDays));
  }

  /**
   * A rendering of day `m`, which is day `n` and the date `d`. A proof step: `r`, `m`
   * and `n` are named apart (with `m == n` required) so that each fact the caller has
   * matches one premise as it stands.
   */
  lemma RenderedAs(r: Result<string, DateError>, m: int, n: int, d: Civil)
    requires r == RenderDay(m) && m == n && CivilFromDay(m) == d
    ensures r == if InTimeRange(MakeDate(n)) then Ok(EnCaString(d))
      else Err(RangeError(InvalidTimeValueMessage))
  {
  }

  /** The corrected formatter after a successful extraction of the fields `c`. */
  lemma CorrectedAfterExtraction(host: Host, f: DailyNoteFormatter, t: TimeMs, offsetDays: int,
                                 c: Civil)
    requires ExtractFields(host.parts(f.timeZone, f.locale, t)) == Some(c)
    ensures FormatDailyNoteDateCorrected(host, f, TimeValue(t), offsetDays)
      == RenderShifted(c, offsetDays)
  {
  }

  /**
   * The corrected formatter returns the calendar date exactly `offsetDays` days after
   * the local date of the reference instant, counted by the calendar's own rules
   * (`AddDays`), or a `RangeError` when that date is outside the time-value range.
   */
  lemma CorrectedIsCalendarShift(host: Host, tz: string, t: TimeMs, offsetDays: int)
    requires RendersEnCa(host) && host.accepts(tz, DefaultLocale)
    requires LocalDate(host, tz, t).year >= 1
    ensures var c := LocalDate(host, tz, t);
      FormatDailyNoteDateCorrected(host, DailyNoteFormatter(tz, DefaultLocale), TimeValue(t), offsetDays)
      == if InTimeRange(MakeDate(DayFromCivil(c) + offsetDays)) then Ok(EnCaString(AddDays(c, offsetDays)))
         else Err(RangeError(InvalidTimeValueMessage))
  {
    var c := LocalDate(host, tz, t);
    ExtractLocalDate(host, tz, t);
    CorrectedAfterExtraction(host, DailyNoteFormatter(tz, DefaultLocale), t, offsetDays, c);
    RenderShiftedIsAddDays(c, offsetDays);
  }

  /**
   * With offset 0 the corrected formatter reproduces what the bound formatter shows for
   * the reference instant itself.
   */
  lemma CorrectedOffsetZeroIsLocalDate(host: Host, tz: string, t: TimeMs)
    requires RendersEnCa(host) && host.accepts(tz, DefaultLocale)
    requires LocalDate(host, tz, t).year >= 1
    requires InTimeRange(MakeDate(host.localDay(tz, t)))
    ensures FormatDailyNoteDateCorrected(host, DailyNoteFormatter(tz, DefaultLocale), TimeValue(t), 0)
      == Ok(Join(host.parts(tz, DefaultLocale, t)))
  {
    CorrectedIsCalendarShift(host, tz, t, 0);
    LocalParts(host, tz, t);
  }

  /** Offset 1 is the next calendar day: month and year ends and 29 February included. */
  lemma CorrectedNextDay(host: Host, tz: string, t: TimeMs)
    requires RendersEnCa(host) && host.accepts(tz, DefaultLocale)
    requires LocalDate(host, tz, t).year >= 1
    requires InTimeRange(MakeDate(host.localDay(tz, t) + 1))
    ensures FormatDailyNoteDateCorrected(host, DailyNoteFormatter(tz, DefaultLocale), TimeValue(t), 1)
      == Ok(EnCaString(NextDay(LocalDate(host, tz, t))))
  {
    CorrectedIsCalendarShift(host, tz, t, 1);
  }
}
