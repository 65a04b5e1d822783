/**
 * A concrete host with fixed-offset zones, the cases of tests/date-utils.test.js on it,
 * and the two inputs on which the daily-note formatter as written departs from the
 * calendar-day shift it is meant to compute.
 */
module DateUtilsExamples {
  import opened Wrappers
  import opened Calendar
  import opened Intl
  import opened DateUtils

  /**
   * The day number of instant `t` in a zone `minutes` from UTC: 60000 ms a minute, and
   * `/` on `int` is the floor division ECMA-262 uses for `Day(t)` (86400000 ms a day).
   */
  function ZoneDayNumber(t: int, minutes: int): int {
    (t + minutes * 60000) / 86400000
  }

  /**
   * A host whose zone database maps each known zone to a fixed offset from UTC in
   * minutes, and whose system zone is `system`. Unknown zones are rejected with the
   * message V8 gives; the parts of a known zone are the `en-CA` rendering of its local
   * date.
   */
  function FixedOffsetHost(zones: map<string, int>, system: string): Host {
    Host(
      system,
      (tz: string, locale: string) => tz in zones,
      (tz: string, locale: string) => "Invalid time zone specified: " + tz,
      (tz: string, t: int) =>
        if tz in zones then ZoneDayNumber(t, zones[tz]) else ZoneDayNumber(t, 0),
      (tz: string, locale: string, t: int) =>
        if tz in zones && locale == DefaultLocale
        then EnCaParts(CivilFromDay(ZoneDayNumber(t, zones[tz])))
        else [])
  }

  /** Every such host renders `en-CA` as the formatter does. */
  lemma FixedOffsetHostRendersEnCa(zones: map<string, int>, system: string)
    ensures RendersEnCa(FixedOffsetHost(zones, system))
  {
  }

  /**
   * On host `h` the zone `tz` is usable with the default locale and lies a fixed
   * `minutes` from UTC over the whole time-value range.
   */
  ghost predicate FixedOffsetZone(h: Host, tz: string, minutes: int) {
    h.accepts(tz, DefaultLocale)
    && forall t: int {:trigger h.localDay(tz, t)} ::
      h.localDay(tz, t) == ZoneDayNumber(t, minutes)
  }

  /** Each zone of the table is such a zone of the host built from it. */
  lemma FixedOffsetHostZones(zones: map<string, int>, system: string, tz: string)
    requires tz in zones
    ensures FixedOffsetZone(FixedOffsetHost(zones, system), tz, zones[tz])
  {
  }

  /** UTC, New York in winter (UTC-5) and Tokyo (UTC+9); the system zone is New York. */
  const ExampleZones: map<string, int> :=
    map["UTC" := 0, "America/New_York" := -300, "Asia/Tokyo" := 540]

  function ExampleHost(): Host {
    FixedOffsetHost(ExampleZones, "America/New_York")
  }

  /** 2024-01-01T12:00:00Z, the base instant of the test. */
  const NoonJan1: TimeMs := 1704110400000

  /** 15 June of the year 50, 12:00 UTC: day -701100 after the epoch, plus half a day. */
  const NoonJune15Year50: TimeMs := -60574996800000

  /** An invalid requested zone falls back to the system zone and records the error. */
  lemma InvalidZoneFallsBack()
    ensures var r := ResolveTimeZone(ExampleHost(), Some("Invalid/Zone"), DefaultLocale);
      r.isFallback && r.effectiveTimeZone == "America/New_York"
      && r.error == Some("Invalid time zone specified: Invalid/Zone")
  {
    ResolveRejectedZone(ExampleHost(), "Invalid/Zone", DefaultLocale);
    assert ExampleHost().rejection("Invalid/Zone", DefaultLocale)
      == "Invalid time zone specified: " + "Invalid/Zone";
    assert "Invalid time zone specified: " + "Invalid/Zone"
      == "Invalid time zone specified: Invalid/Zone";
  }

  /** A known zone is kept; an empty request is no request. */
  lemma KnownAndEmptyZones()
    ensures ResolveTimeZone(ExampleHost(), Some("Asia/Tokyo"), DefaultLocale).effectiveTimeZone
      == "Asia/Tokyo"
    ensures var r := ResolveTimeZone(ExampleHost(), Some(""), DefaultLocale);
      r.effectiveTimeZone == "America/New_York" && !r.isFallback && r.requestedTimeZone.None?
  {
    ResolveAcceptedZone(ExampleHost(), "Asia/Tokyo", DefaultLocale);
    ResolveWithoutRequest(ExampleHost(), Some(""), DefaultLocale);
  }

  /** The local day number of an instant in a fixed-offset zone. */
  lemma ZoneDay(h: Host, tz: string, minutes: int, t: int, n: int)
    requires FixedOffsetZone(h, tz, minutes)
    requires ZoneDayNumber(t, minutes) == n
    ensures h.localDay(tz, t) == n
  {
  }

  /**
   * The formatter as written, when the reference instant falls on local day `m` of a
   * year from 100 on: the local date, in the zone, of UTC midnight of day `n`.
   */
  lemma AsWrittenIs(h: Host, tz: string, t: TimeMs, offsetDays: int, m: int, n: int)
    requires RendersEnCa(h) && h.accepts(tz, DefaultLocale)
    requires h.localDay(tz, t) == m && CivilFromDay(m).year >= 100
    requires n == m + offsetDays && InTimeRange(MakeDate(n))
    ensures FormatDailyNoteDate(h, DailyNoteFormatter(tz, DefaultLocale), TimeValue(t), offsetDays)
      == Ok(EnCaString(CivilFromDay(h.localDay(tz, MakeDate(n)))))
  {
    var c := CivilFromDay(m);
    ExtractLocalDate(h, tz, t);
    DateUtcOfDate(c, offsetDays);
    FormatRendersDay(h, tz, t, offsetDays, c, n);
  }

  /**
   * The same for a year from 1 to 99, where `Date.UTC` adds 1900 to the year; the local
   * date `c` is given by its day number `m`.
   */
  lemma AsWrittenTwoDigitIs(h: Host, tz: string, t: TimeMs, offsetDays: int, m: int, c: Civil,
                            n: int)
    requires RendersEnCa(h) && h.accepts(tz, DefaultLocale) && h.localDay(tz, t) == m
    requires ValidCivil(c) && DayFromCivil(c) == m && 1 <= c.year <= 99
    requires n == MakeDay(c.year + 1900, c.month - 1, c.day + offsetDays)
    requires InTimeRange(MakeDate(n))
    ensures FormatDailyNoteDate(h, DailyNoteFormatter(tz, DefaultLocale), TimeValue(t), offsetDays)
      == Ok(EnCaString(LocalDate(h, tz, MakeDate(n))))
  {
    DecodesTo(c, m);
    ExtractLocalDate(h, tz, t);
    DateUtcTwoDigitYear(c.year, c.month - 1, c.day + offsetDays, n);
    FormatRendersDay(h, tz, t, offsetDays, c, n);
  }

  /** The corrected formatter, when the reference instant falls on local day `m`. */
  lemma CorrectedIs(h: Host, tz: string, t: TimeMs, offsetDays: int, m: int, n: int)
    requires RendersEnCa(h) && h.accepts(tz, DefaultLocale)
    requires h.localDay(tz, t) == m && CivilFromDay(m).year >= 1
    requires n == m + offsetDays && InTimeRange(MakeDate(n))
    ensures FormatDailyNoteDateCorrected(h, DailyNoteFormatter(tz, DefaultLocale), TimeValue(t),
                                         offsetDays) == Ok(EnCaString(CivilFromDay(n)))
  {
    var c := LocalDate(h, tz, t);
    CorrectedIsCalendarShift(h, tz, t, offsetDays);
    ShiftIsAddDays(c, offsetDays, n);
  }

  /**
   * In a zone a fixed 0 to 24 hours east of UTC, UTC midnight of every day falls on
   * that same local day.
   */
  lemma EastOfUtcMidnights(h: Host, tz: string, minutes: int)
    requires FixedOffsetZone(h, tz, minutes) && 0 <= minutes < 1440
    ensures forall n: int :: h.localDay(tz, MakeDate(n)) == n
  {
    forall n: int ensures h.localDay(tz, MakeDate(n)) == n {
      var r := minutes * 60000;
      assert 0 <= r < 86400000;
      assert MakeDate(n) + r == n * 86400000 + r;
      assert ZoneDayNumber(MakeDate(n), minutes) == n;
    }
  }

  /**
   * On such a zone, UTC among them, the formatter as written shifts by calendar days:
   * month and year ends, 29 February and negative offsets included.
   */
  lemma EastOfUtcAsWritten(h: Host, tz: string, minutes: int, t: TimeMs, offsetDays: int)
    requires RendersEnCa(h) && FixedOffsetZone(h, tz, minutes) && 0 <= minutes < 1440
    requires LocalDate(h, tz, t).year >= 100
    ensures var c := LocalDate(h, tz, t);
      FormatDailyNoteDate(h, DailyNoteFormatter(tz, DefaultLocale), TimeValue(t), offsetDays)
      == if InTimeRange(MakeDate(DayFromCivil(c) + offsetDays)) then Ok(EnCaString(AddDays(c, offsetDays)))
         else Err(RangeError(InvalidTimeValueMessage))
  {
    EastOfUtcMidnights(h, tz, minutes);
    AsWrittenIsCalendarShiftInUtc(h, tz, t, offsetDays);
  }

  /** The local day numbers, in UTC, of the instants used below. */
  lemma UtcDays(h: Host)
    requires FixedOffsetZone(h, "UTC", 0)
    ensures h.localDay("UTC", NoonJan1) == 19723
    ensures h.localDay("UTC", 1704067200000) == 19723
    ensures h.localDay("UTC", 1704153600000) == 19724
    ensures h.localDay("UTC", NoonJune15Year50) == -701100
    ensures h.localDay("UTC", -616896000000) == -7140
  {
    ZoneDay(h, "UTC", 0, NoonJan1, 19723);
    ZoneDay(h, "UTC", 0, 1704067200000, 19723);
    ZoneDay(h, "UTC", 0, 1704153600000, 19724);
    ZoneDay(h, "UTC", 0, NoonJune15Year50, -701100);
    ZoneDay(h, "UTC", 0, -616896000000, -7140);
  }

  /** The local day numbers, in New York (UTC-5), of the instants used below. */
  lemma NewYorkDays(h: Host)
    requires FixedOffsetZone(h, "America/New_York", -300)
    ensures h.localDay("America/New_York", NoonJan1) == 19723
    ensures h.localDay("America/New_York", 1704067200000) == 19722
  {
    ZoneDay(h, "America/New_York", -300, NoonJan1, 19723);
    ZoneDay(h, "America/New_York", -300, 1704067200000, 19722);
  }

  /** UTC midnight of the days used below, all within the time-value range. */
  lemma Midnights()
    ensures MakeDate(19723) == 1704067200000 && MakeDate(19724) == 1704153600000
    ensures MakeDate(-7140) == -616896000000
    ensures InTimeRange(MakeDate(19723)) && InTimeRange(MakeDate(19724))
    ensures InTimeRange(MakeDate(-7140)) && InTimeRange(MakeDate(-701100))
  {
  }

  lemma Day19722() ensures CivilFromDay(19722) == Civil(2023, 12, 31) {
    DecodesTo(Civil(2023, 12, 31), 19722);
  }

  lemma Day19723() ensures CivilFromDay(19723) == Civil(2024, 1, 1) {
    DecodesTo(Civil(2024, 1, 1), 19723);
  }

  lemma Day19724() ensures CivilFromDay(19724) == Civil(2024, 1, 2) {
    DecodesTo(Civil(2024, 1, 2), 19724);
  }

  lemma DayMinus701100() ensures CivilFromDay(-701100) == Civil(50, 6, 15) {
    DecodesTo(Civil(50, 6, 15), -701100);
  }

  lemma DayMinus7140() ensures CivilFromDay(-7140) == Civil(1950, 6, 15) {
    DecodesTo(Civil(1950, 6, 15), -7140);
  }

  /** 15 June of the year 50 is a date, day -701100 after the epoch. */
  lemma June15Of50()
    ensures ValidCivil(Civil(50, 6, 15)) && DayFromCivil(Civil(50, 6, 15)) == -701100
  {
  }

  /** In UTC, the instants of the two-digit-year example fall on 15 June of 50 and 1950. */
  lemma UtcJune15(h: Host)
    requires FixedOffsetZone(h, "UTC", 0)
    ensures LocalDate(h, "UTC", NoonJune15Year50) == Civil(50, 6, 15)
    ensures LocalDate(h, "UTC", MakeDate(-7140)) == Civil(1950, 6, 15)
  {
    UtcDays(h);
    Midnights();
    DayMinus701100();
    DayMinus7140();
  }

  /** `Date.UTC(1950, 5, 15)` is the midnight starting day -7140. */
  lemma June15Of1950() ensures MakeDay(1950, 5, 15) == -7140 {
  }

  /** The test on the UTC formatter, on every host with a correct UTC zone: today ... */
  lemma UtcToday(h: Host)
    requires RendersEnCa(h) && FixedOffsetZone(h, "UTC", 0)
    ensures FormatDailyNoteDate(h, DailyNoteFormatter("UTC", DefaultLocale),
                                TimeValue(NoonJan1), 0) == Ok("2024-01-01")
  {
    UtcDays(h);
    Midnights();
    Day19723();
    AsWrittenIs(h, "UTC", NoonJan1, 0, 19723, 19723);
    RenderJan2024();
  }

  /** ... and tomorrow of 2024-01-01T12:00:00Z. */
  lemma UtcTomorrow(h: Host)
    requires RendersEnCa(h) && FixedOffsetZone(h, "UTC", 0)
    ensures FormatDailyNoteDate(h, DailyNoteFormatter("UTC", DefaultLocale),
                                TimeValue(NoonJan1), 1) == Ok("2024-01-02")
  {
    UtcDays(h);
    Midnights();
    Day19723();
    Day19724();
    AsWrittenIs(h, "UTC", NoonJan1, 1, 19723, 19724);
    RenderJan2024();
  }

  /**
   * As written, in New York (UTC-5) the daily note of 2024-01-01T12:00:00Z, local date
   * 1 January 2024, comes out as the previous day: UTC midnight of 1 January is still
   * 31 December in New York.
   */
  lemma NewYorkAsWritten(h: Host)
    requires RendersEnCa(h) && FixedOffsetZone(h, "America/New_York", -300)
    ensures LocalDate(h, "America/New_York", NoonJan1) == Civil(2024, 1, 1)
    ensures FormatDailyNoteDate(h, DailyNoteFormatter("America/New_York", DefaultLocale),
                                TimeValue(NoonJan1), 0) == Ok("2023-12-31")
  {
    NewYorkDays(h);
    Midnights();
    Day19722();
    Day19723();
    AsWrittenIs(h, "America/New_York", NoonJan1, 0, 19723, 19723);
    RenderDec31Of2023();
  }

  /** The corrected formatter gives the local date itself for the same input. */
  lemma NewYorkCorrected(h: Host)
    requires RendersEnCa(h) && FixedOffsetZone(h, "America/New_York", -300)
    ensures FormatDailyNoteDateCorrected(h, DailyNoteFormatter("America/New_York", DefaultLocale),
                                         TimeValue(NoonJan1), 0) == Ok("2024-01-01")
  {
    NewYorkDays(h);
    Midnights();
    Day19723();
    CorrectedIs(h, "America/New_York", NoonJan1, 0, 19723, 19723);
    RenderJan2024();
  }

  /**
   * As written, a local date in the year 50 passes through `Date.UTC`, which reads the
   * year as 1950.
   */
  lemma TwoDigitYearAsWritten(h: Host)
    requires RendersEnCa(h) && FixedOffsetZone(h, "UTC", 0)
    ensures LocalDate(h, "UTC", NoonJune15Year50) == Civil(50, 6, 15)
    ensures FormatDailyNoteDate(h, DailyNoteFormatter("UTC", DefaultLocale),
                                TimeValue(NoonJune15Year50), 0) == Ok("1950-06-15")
  {
    UtcDays(h);
    Midnights();
    June15Of50();
    June15Of1950();
    AsWrittenTwoDigitIs(h, "UTC", NoonJune15Year50, 0, -701100, Civil(50, 6, 15), -7140);
    UtcJune15(h);
    RenderJune15();
  }

  /** The corrected formatter keeps the year 50. */
  lemma TwoDigitYearCorrected(h: Host)
    requires RendersEnCa(h) && FixedOffsetZone(h, "UTC", 0)
    ensures FormatDailyNoteDateCorrected(h, DailyNoteFormatter("UTC", DefaultLocale),
                                         TimeValue(NoonJune15Year50), 0) == Ok("50-06-15")
  {
    UtcDays(h);
    Midnights();
    DayMinus701100();
    CorrectedIs(h, "UTC", NoonJune15Year50, 0, -701100, -701100);
    RenderJune15();
  }

  /** The example host meets the requirements of the lemmas above. */
  lemma ExampleHostZones()
    ensures RendersEnCa(ExampleHost())
    ensures FixedOffsetZone(ExampleHost(), "UTC", 0)
    ensures FixedOffsetZone(ExampleHost(), "America/New_York", -300)
  {
    FixedOffsetHostRendersEnCa(ExampleZones, "America/New_York");
    FixedOffsetHostZones(ExampleZones, "America/New_York", "UTC");
    FixedOffsetHostZones(ExampleZones, "America/New_York", "America/New_York");
  }

  /** Decimal renderings used above, digit by digit. */
  lemma DecimalYears()
    ensures Decimal(2024) == "2024" && Decimal(2023) == "2023"
    ensures Decimal(1950) == "1950" && Decimal(50) == "50"
  {
    assert Decimal(2) == "2" && Decimal(1) == "1" && Decimal(5) == "5";
    assert Decimal(20) == Decimal(2) + "0" && Decimal(19) == Decimal(1) + "9";
    assert Decimal(50) == Decimal(5) + "0";
    assert Decimal(202) == Decimal(20) + "2" && Decimal(195) == Decimal(19) + "5";
    assert Decimal(2024) == Decimal(202) + "4" && Decimal(2023) == Decimal(202) + "3";
    assert Decimal(1950) == Decimal(195) + "0";
  }

  lemma RenderJan2024()
    ensures EnCaString(Civil(2024, 1, 1)) == "2024-01-01"
    ensures EnCaString(Civil(2024, 1, 2)) == "2024-01-02"
  {
    DecimalYears();
    assert Pad2(1) == "01" && Pad2(2) == "02";
  }

  lemma RenderDec31Of2023()
    ensures EnCaString(Civil(2023, 12, 31)) == "2023-12-31"
  {
    DecimalYears();
    assert Decimal(12) == Decimal(1) + "2" && Decimal(31) == Decimal(3) + "1";
  }

  lemma RenderJune15()
    ensures EnCaString(Civil(1950, 6, 15)) == "1950-06-15"
    ensures EnCaString(Civil(50, 6, 15)) == "50-06-15"
  {
    DecimalYears();
    assert Pad2(6) == "06" && Decimal(15) == Decimal(1) + "5";
  }
}
