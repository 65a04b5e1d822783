/**
 * The host's internationalisation facility (`Intl.DateTimeFormat`) and the JavaScript
 * number conversion the daily-note formatter applies to its output. The time-zone
 * database and the locale data stay abstract: a `Host` value supplies them as total
 * functions. What is concrete is the shape of the parts the formatter created by
 * date-utils.js produces for the `en-CA` locale (numeric year, 2-digit month, 2-digit
 * day, joined by `-`), how `format` relates to `formatToParts`, and how the parts are
 * read back with `Array.prototype.find` and `Number`.
 */
module Intl {
  import opened Wrappers
  import opened Calendar

  /** The locale date-utils.js uses when the caller gives none. */
  const DefaultLocale: string := "en-CA"

  /** One element of `formatToParts`: `kind` is the part's `type` ("year", "literal", ...). */
  datatype Part = Part(kind: string, value: string)

  /**
   * What the host environment provides.
   * - `systemZone`: `Intl.DateTimeFormat().resolvedOptions().timeZone`, "" when absent;
   * - `accepts(tz, locale)`: a `DateTimeFormat` for that locale and zone can be built;
   * - `rejection(tz, locale)`: the message of the `RangeError` thrown otherwise;
   * - `localDay(tz, t)`: the time-zone database, the day number of the local date of
   *   time value `t` (milliseconds since 1970-01-01T00:00Z) in zone `tz`;
   * - `parts(tz, locale, t)`: `formatToParts` of time value `t` by the formatter for
   *   `tz` and `locale` with the numeric / 2-digit date options.
   */
  datatype Host = Host(
    systemZone: string,
    accepts: (string, string) -> bool,
    rejection: (string, string) -> string,
    localDay: (string, int) -> int,
    parts: (string, string, int) -> seq<Part>)

  /** `format(x)` is the concatenation of the values of `formatToParts(x)`. */
  function Join(ps: seq<Part>): string {
    if ps == [] then "" else ps[0].value + Join(ps[1..])
  }

  /** `parts.find(part => part.type === kind)?.value`: the first match or `undefined`. */
  function Find(ps: seq<Part>, kind: string): Option<string> {
    if ps == [] then None
    else if ps[0].kind == kind then Some(ps[0].value)
    else Find(ps[1..], kind)
  }

  /** `find` gives `undefined` exactly when no part has the kind. */
  lemma {:induction false} FindNone(ps: seq<Part>, kind: string)
    ensures Find(ps, kind).None? <==> forall i :: 0 <= i < |ps| ==> ps[i].kind != kind
    decreases |ps|
  {
    if ps != [] {
      FindNone(ps[1..], kind);
      assert forall i :: 1 <= i < |ps| ==> ps[i] == ps[1..][i - 1];
    }
  }

  /** `find` returns the value of the part at `i` when it is the first of its kind. */
  lemma {:induction false} FindAt(ps: seq<Part>, kind: string, i: nat)
    requires i < |ps| && ps[i].kind == kind
    requires forall j :: 0 <= j < i ==> ps[j].kind != kind
    ensures Find(ps, kind) == Some(ps[i].value)
    decreases i
  {
    if i > 0 {
      assert ps[0].kind != kind;
      FindAt(ps[1..], kind, i - 1);
    }
  }

  predicate IsDigit(c: char) {
    '0' <= c <= '9'
  }

  predicate AllDigits(s: string) {
    forall i :: 0 <= i < |s| ==> IsDigit(s[i])
  }

  /** The value of a string of decimal digits, most significant first. */
  function DigitsValue(s: string): nat
    requires AllDigits(s)
  {
    if s == [] then 0
    else DigitsValue(s[..|s| - 1]) * 10 + (s[|s| - 1] as int - '0' as int)
  }

  /** A JavaScript number: finite (integral, in this model) or NaN. */
  datatype Number = Finite(n: int) | NaN

  /**
   * `Number(s)` for the strings this model covers: "" is 0, an optional sign followed
   * by decimal digits is that integer, anything else is NaN.
   */
  function StringToNumber(s: string): Number {
    if s == "" then Finite(0)
    else if AllDigits(s) then Finite(DigitsValue(s))
    else if |s| > 1 && s[0] == '-' && AllDigits(s[1..]) then Finite(0 - DigitsValue(s[1..]))
    else if |s| > 1 && s[0] == '+' && AllDigits(s[1..]) then Finite(DigitsValue(s[1..]))
    else NaN
  }

  /** `Number(v)` for a string or `undefined` (which is NaN). */
  function ToNumber(v: Option<string>): Number {
    match v
    case None => NaN
    case Some(s) => StringToNumber(s)
  }

  /** The shortest decimal rendering of a natural number, most significant digit first. */
  function Decimal(n: nat): string {
    if n < 10 then ['0' + n as char] else Decimal(n / 10) + ['0' + (n % 10) as char]
  }

  /** The rendering is a non-empty digit string that reads back as `n`. */
  lemma {:induction false} DecimalDigits(n: nat)
    ensures |Decimal(n)| >= 1 && AllDigits(Decimal(n))
    ensures DigitsValue(Decimal(n)) == n
    ensures (n < 10) == (|Decimal(n)| == 1)
    decreases n
  {
    if n >= 10 {
      DecimalDigits(n / 10);
      var s := Decimal(n);
      assert s[..|s| - 1] == Decimal(n / 10);
    }
  }

  /** A leading zero does not change the value of a digit string. */
  lemma {:induction false} LeadingZero(s: string)
    requires AllDigits(s)
    ensures AllDigits("0" + s) && DigitsValue("0" + s) == DigitsValue(s)
    decreases |s|
  {
    if s != [] {
      var t := "0" + s;
      assert t[..|t| - 1] == "0" + s[..|s| - 1];
      LeadingZero(s[..|s| - 1]);
    }
  }

  /**
   * The 2-digit rendering used for month and day: zero-padded to two characters (a
   * negative number, which no real date has, keeps its sign in front).
   */
  function Pad2(n: int): string
    decreases if n < 0 then 1 else 0
  {
    if n < 0 then "-" + Pad2(-n)
    else if n < 10 then "0" + Decimal(n)
    else Decimal(n)
  }

  /** Below 100 the padded rendering is two digits that read back as `n`. */
  lemma Pad2Digits(n: int)
    requires 0 <= n < 100
    ensures |Pad2(n)| == 2 && AllDigits(Pad2(n)) && DigitsValue(Pad2(n)) == n
  {
    DecimalDigits(n);
    if n < 10 {
      LeadingZero(Decimal(n));
    } else {
      DecimalDigits(n / 10);
    }
  }

  /**
   * The numeric year of the Gregorian calendar as Intl displays it: the year of the
   * era, so years before 1 CE count backwards from 1 BCE.
   */
  function YearOfEra(y: int): (n: nat)
    ensures y >= 1 ==> n == y
  {
    if y >= 1 then y else 1 - y
  }

  /** `formatToParts` of a date in the `en-CA` locale with the options of date-utils.js. */
  function EnCaParts(c: Civil): seq<Part> {
    [Part("year", Decimal(YearOfEra(c.year))), Part("literal", "-"),
     Part("month", Pad2(c.month)), Part("literal", "-"), Part("day", Pad2(c.day))]
  }

  /** `format` of a date in the `en-CA` locale: year, month and day joined by hyphens. */
  function EnCaString(c: Civil): string {
    Decimal(YearOfEra(c.year)) + "-" + Pad2(c.month) + "-" + Pad2(c.day)
  }

  /** `format` is the concatenation of what `formatToParts` returns, for en-CA dates. */
  lemma JoinEnCaParts(c: Civil)
    ensures Join(EnCaParts(c)) == EnCaString(c)
  {
    var ps := EnCaParts(c);
    JoinFive(ps);
    ConcatFive(ps[0].value, ps[1].value, ps[2].value, ps[3].value, ps[4].value);
  }

  /** Concatenation regrouped. */
  lemma ConcatFive(a: string, b: string, c: string, d: string, e: string)
    ensures a + (b + (c + (d + e))) == a + b + c + d + e
  {
    assert c + (d + e) == c + d + e;
    assert b + (c + d + e) == b + c + d + e;
    assert a + (b + c + d + e) == a + b + c + d + e;
  }

  /** `format` of five parts spelled out. */
  lemma JoinFive(ps: seq<Part>)
    requires |ps| == 5
    ensures Join(ps) == ps[0].value + (ps[1].value + (ps[2].value + (ps[3].value + ps[4].value)))
  {
    assert Join(ps[4..]) == ps[4].value by { assert ps[4..][1..] == []; }
    assert Join(ps[3..]) == ps[3].value + Join(ps[4..]) by { assert ps[3..][1..] == ps[4..]; }
    assert Join(ps[2..]) == ps[2].value + Join(ps[3..]) by { assert ps[2..][1..] == ps[3..]; }
    assert Join(ps[1..]) == ps[1].value + Join(ps[2..]) by { assert ps[1..][1..] == ps[2..]; }
  }

  /**
   * The calendar fields the formatter reads back from formatted parts: year, month and
   * day as found by `find` and converted by `Number`, or `None` when any is not finite.
   */
  function ExtractFields(ps: seq<Part>): Option<Civil> {
    var year := ToNumber(Find(ps, "year"));
    var month := ToNumber(Find(ps, "month"));
    var day := ToNumber(Find(ps, "day"));
    if year.Finite? && month.Finite? && day.Finite? then Some(Civil(year.n, month.n, day.n))
    else None
  }

  /** Reading the en-CA parts of a date of the common era back gives the same date. */
  lemma ExtractEnCaParts(c: Civil)
    requires ValidCivil(c) && c.year >= 1
    ensures ExtractFields(EnCaParts(c)) == Some(c)
  {
    FindEnCaParts(c);
    DecimalDigits(c.year);
    Pad2Digits(c.month);
    Pad2Digits(c.day);
  }

  /** `find` locates the three fields of the en-CA parts. */
  lemma FindEnCaParts(c: Civil)
    ensures Find(EnCaParts(c), "year") == Some(Decimal(YearOfEra(c.year)))
    ensures Find(EnCaParts(c), "month") == Some(Pad2(c.month))
    ensures Find(EnCaParts(c), "day") == Some(Pad2(c.day))
  {
    FindYear(EnCaParts(c));
    FindMonth(EnCaParts(c));
    FindDay(EnCaParts(c));
  }

  lemma FindYear(ps: seq<Part>)
    requires |ps| == 5 && ps[0].kind == "year"
    ensures Find(ps, "year") == Some(ps[0].value)
  {
    FindAt(ps, "year", 0);
  }

  lemma FindMonth(ps: seq<Part>)
    requires |ps| == 5 && ps[0].kind == "year" && ps[1].kind == "literal" && ps[2].kind == "month"
    ensures Find(ps, "month") == Some(ps[2].value)
  {
    FindAt(ps, "month", 2);
  }

  lemma FindDay(ps: seq<Part>)
    requires |ps| == 5 && ps[0].kind == "year" && ps[1].kind == "literal"
    requires ps[2].kind == "month" && ps[3].kind == "literal" && ps[4].kind == "day"
    ensures Find(ps, "day") == Some(ps[4].value)
  {
    FindAt(ps, "day", 4);
  }

  /** Four-digit numbers render as four digits. */
  lemma DecimalFourDigits(n: nat)
    requires 1000 <= n <= 9999
    ensures |Decimal(n)| == 4
  {
    DecimalDigits(n / 10 / 10);
    assert |Decimal(n / 10 / 10)| == 2;
  }

  /**
   * For years 1000 to 9999 the formatter's output is the extended calendar-date form of
   * ISO 8601, `YYYY-MM-DD`, and its three digit groups are the year, month and day.
   */
  lemma EnCaStringIsIsoDate(c: Civil)
    requires ValidCivil(c) && 1000 <= c.year <= 9999
    ensures var s := EnCaString(c);
      |s| == 10 && s[4] == '-' && s[7] == '-'
      && AllDigits(s[..4]) && AllDigits(s[5..7]) && AllDigits(s[8..])
      && DigitsValue(s[..4]) == c.year && DigitsValue(s[5..7]) == c.month
      && DigitsValue(s[8..]) == c.day
  {
    DecimalFourDigits(c.year);
    DecimalDigits(c.year);
    Pad2Digits(c.month);
    Pad2Digits(c.day);
    var s := EnCaString(c);
    assert s[..4] == Decimal(c.year);
    assert s[5..7] == Pad2(c.month);
    assert s[8..] == Pad2(c.day);
  }

  /**
   * A host whose `en-CA` formatter renders, for every zone it accepts, the local date
   * its time-zone database gives, with the parts described by `EnCaParts`.
   */
  ghost predicate RendersEnCa(host: Host) {
    forall tz: string, t: int {:trigger host.parts(tz, DefaultLocale, t)} ::
      host.accepts(tz, DefaultLocale) ==>
        host.parts(tz, DefaultLocale, t) == EnCaParts(CivilFromDay(host.localDay(tz, t)))
  }
}
