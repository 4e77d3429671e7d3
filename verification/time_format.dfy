/**
 * The client's date handling: `coerceDate` turns a date-like value into an
 * instant, reading a date-only "YYYY-MM-DD" string as noon UTC of that day
 * so that the Eastern calendar date does not roll back; the three
 * formatters answer a fixed text for a falsy input. Instants are
 * milliseconds since the epoch, as in a JavaScript `Date`. The Eastern
 * calendar formatting itself is not modelled.
 */
module TimeFormat {
  import opened Common

  const MS_PER_HOUR: int := 3600000
  const MS_PER_DAY: int := 86400000
  const NOON: int := 12 * MS_PER_HOUR
  /** The largest magnitude a `Date` can hold (`TimeClip`). */
  const MAX_TIME: int := 8640000000000000

  /** What `coerceDate` and the formatters may be given. */
  datatype DateLike = Plain(v: JsValue) | DateObject(ms: int)

  /**
   * What `coerceDate` returns: null, a `Date` at an instant, an invalid
   * `Date`, or a `Date` built by the built-in parser from other text (that
   * parser is not modelled).
   */
  datatype Coerced = NullDate | Instant(ms: int) | InvalidDate | Parsed(text: string)

  predicate TruthyDate(d: DateLike) {
    d.DateObject? || Truthy(d.v)
  }

  /** `TimeClip`: a time beyond the range of `Date` is an invalid date. */
  function TimeClip(ms: int): (r: Coerced)
    ensures r.Instant? <==> -MAX_TIME <= ms <= MAX_TIME
    ensures r.Instant? ==> r.ms == ms
    ensures !r.Instant? ==> r == InvalidDate
  {
    if -MAX_TIME <= ms <= MAX_TIME then Instant(ms) else InvalidDate
  }

  /* ---------------- The date-only pattern ---------------- */

  /** `\d`: an ASCII digit. */
  predicate Digit(c: char) {
    '0' <= c <= '9'
  }

  /** `\d{4}-\d{2}-\d{2}`. */
  predicate DateShape(t: string) {
    |t| == 10 && Digit(t[0]) && Digit(t[1]) && Digit(t[2]) && Digit(t[3]) && t[4] == '-'
    && Digit(t[5]) && Digit(t[6]) && t[7] == '-' && Digit(t[8]) && Digit(t[9])
  }

  /**
   * `/^\s*(\d{4})-(\d{2})-(\d{2})\s*$/`: white space, the date, white space,
   * and nothing else.
   */
  ghost predicate RegexMatches(s: string) {
    exists i, j :: 0 <= i <= j <= |s| && AllSpace(s[..i]) && DateShape(s[i..j]) && AllSpace(s[j..])
  }

  /** The test the model uses: the trimmed text has the date shape. */
  predicate DateOnly(s: string) {
    DateShape(Trim(s))
  }

  /** Since `\s` and `trim` know the same white space, the regular expression matches exactly the date-only strings. */
  lemma DateOnlyIsRegex(s: string)
    ensures DateOnly(s) <==> RegexMatches(s)
  {
    if DateOnly(s) {
      DateOnlyMatches(s);
    }
    if RegexMatches(s) {
      var i, j :| 0 <= i <= j <= |s| && AllSpace(s[..i]) && DateShape(s[i..j]) && AllSpace(s[j..]);
      MatchIsDateOnly(s, i, j);
    }
  }

  lemma MatchIsDateOnly(s: string, i: int, j: int)
    requires 0 <= i <= j <= |s| && AllSpace(s[..i]) && DateShape(s[i..j]) && AllSpace(s[j..])
    ensures DateOnly(s)
  {
    assert s == s[..i] + s[i..j] + s[j..];
    TrimPadded(s[..i], s[i..j], s[j..]);
  }

  lemma DateOnlyMatches(s: string)
    requires DateOnly(s)
    ensures RegexMatches(s)
  {
    TrimShape(s);
    var k := |s| - |TrimStart(s)|;
    var t := Trim(s);
    assert s[k..k + |t|] == t;
    assert AllSpace(s[..k]) && AllSpace(s[k + |t|..]);
  }

  /** The value of one decimal digit. */
  function DigitValue(c: char): (n: int)
    requires Digit(c)
    ensures 0 <= n <= 9
  {
    c as int - '0' as int
  }

  /** Each digit reads as its own place in "0123456789". */
  lemma DigitValueExact(c: char)
    requires Digit(c)
    ensures "0123456789"[DigitValue(c)] == c && DigitChar(DigitValue(c)) == c
  {
  }

  /** `Number(m[k])` for a two-digit group. */
  function TwoDigits(a: char, b: char): (n: int)
    requires Digit(a) && Digit(b)
    ensures 0 <= n <= 99
  {
    10 * DigitValue(a) + DigitValue(b)
  }

  /** The three groups of a date-only text, read as decimal numbers. */
  function YearField(t: string): (n: int)
    requires DateShape(t)
    ensures 0 <= n <= 9999
  {
    100 * TwoDigits(t[0], t[1]) + TwoDigits(t[2], t[3])
  }

  function MonthField(t: string): (n: int)
    requires DateShape(t)
    ensures 0 <= n <= 99
  {
    TwoDigits(t[5], t[6])
  }

  function DayField(t: string): (n: int)
    requires DateShape(t)
    ensures 0 <= n <= 99
  {
    TwoDigits(t[8], t[9])
  }

  /* ---------------- Date.UTC ---------------- */

  /** Days from 1970-01-01 to the first of `month` (1 to 12) of `year`, proleptic Gregorian. */
  function DaysToMonthStart(year: int, month: int): int
    requires 1 <= month <= 12
  {
    var y := if month <= 2 then year - 1 else year;
    var era := y / 400;
    var yoe := y - era * 400;
    var mp := (month + 9) % 12;
    var doy := (153 * mp + 2) / 5;
    var doe := yoe * 365 + yoe / 4 - yoe / 100 + doy;
    era * 146097 + doe - 719468
  }

  /**
   * The day `Date.UTC(year, monthIndex, day, ...)` falls on: a year from 0
   * to 99 means 1900 plus it, a month index outside 0 to 11 moves into a
   * neighbouring year, and a day outside the month counts on from its
   * first day.
   */
  function UtcDay(year: int, monthIndex: int, day: int): int {
    var fullYear := if 0 <= year <= 99 then 1900 + year else year;
    DaysToMonthStart(fullYear + monthIndex / 12, monthIndex % 12 + 1) + day - 1
  }

  /** `Date.UTC(year, monthIndex, day, 12, 0, 0)`: noon of that day. */
  function UtcNoon(year: int, monthIndex: int, day: int): (ms: int)
    ensures ms % MS_PER_DAY == NOON
  {
    NoonOfDay(UtcDay(year, monthIndex, day));
    UtcDay(year, monthIndex, day) * MS_PER_DAY + NOON
  }

  lemma NoonOfDay(days: int)
    ensures (days * MS_PER_DAY + NOON) % MS_PER_DAY == NOON
  {
    var a := days * MS_PER_DAY + NOON;
    assert a == days * MS_PER_DAY + NOON && 0 <= NOON < MS_PER_DAY;
    assert a / MS_PER_DAY == days;
  }

  /** `new Date(Date.UTC(y, mo - 1, d, 12, 0, 0))` for the groups of a date-only text. */
  function DateOnlyInstant(t: string): (r: Coerced)
    requires DateShape(t)
    ensures r.Instant? ==> r.ms % MS_PER_DAY == NOON
    ensures r == TimeClip(UtcNoon(YearField(t), MonthField(t) - 1, DayField(t)))
  {
    TimeClip(UtcNoon(YearField(t), MonthField(t) - 1, DayField(t)))
  }

  /**
   * `coerceDate(dateLike)`: null for a falsy value, a `Date` unchanged, a
   * number as a timestamp, a date-only string as noon UTC of that day, and
   * anything else through the built-in `Date` constructor.
   */
  function CoerceDate(d: DateLike): (r: Coerced)
    ensures !TruthyDate(d) <==> r == NullDate
    ensures d.DateObject? ==> r == Instant(d.ms)
    ensures d.Plain? && d.v.Num? && d.v.n != 0 ==> r == TimeClip(d.v.n)
    ensures d.Plain? && d.v.Str? && DateOnly(d.v.s) ==>
              var t := Trim(d.v.s);
              r == DateOnlyInstant(t)
    ensures d.Plain? && d.v.Str? && d.v.s != "" && !DateOnly(d.v.s) ==> r == Parsed(d.v.s)
    ensures r.Instant? && d.Plain? && d.v.Str? ==> r.ms % MS_PER_DAY == NOON
  {
    match d
    case DateObject(ms) => Instant(ms)
    case Plain(v) =>
      if !Truthy(v) then NullDate
      else match v
        case Num(n) => TimeClip(n)
        case Bool(_) => Instant(1)
        case Str(s) =>
          if DateOnly(s) then
            var t := Trim(s);
            DateOnlyInstant(t)
          else Parsed(s)
        case _ => NullDate
  }

  /** A date-only string means the same day whatever white space surrounds it. */
  lemma PaddingIgnored(before: string, t: string, after: string)
    requires DateShape(t) && AllSpace(before) && AllSpace(after)
    ensures CoerceDate(Plain(Str(before + t + after))) == CoerceDate(Plain(Str(t)))
  {
    TrimPadded(before, t, after);
    TrimPadded([], t, []);
    assert [] + t + [] == t;
  }

  /** The month field counts from one: month 13 is January of the next year, month 00 December of the last. */
  lemma MonthOverflow(year: int, day: int)
    requires year > 100
    ensures UtcDay(year, 12, day) == UtcDay(year + 1, 0, day)
    ensures UtcDay(year, -1, day) == UtcDay(year - 1, 11, day)
  {
    assert 12 / 12 == 1 && 12 % 12 == 0 && 0 / 12 == 0 && 0 % 12 == 0;
    assert -1 / 12 == -1 && -1 % 12 == 11 && 11 / 12 == 0 && 11 % 12 == 11;
  }

  /** Consecutive day fields are exactly one day apart. */
  lemma NextDay(year: int, monthIndex: int, day: int)
    ensures UtcDay(year, monthIndex, day + 1) == UtcDay(year, monthIndex, day) + 1
  {
  }

  /** The epoch day: "1970-01-01" is day zero. */
  lemma EpochDay()
    ensures UtcDay(1970, 0, 1) == 0
  {
    assert 1969 / 400 == 4;
    assert (1 + 9) % 12 == 10;
    assert (153 * 10 + 2) / 5 == 306;
    assert 369 / 4 == 92 && 369 / 100 == 3;
  }

  /** A year field starting "00" is read as the same year in the 1900s. */
  lemma LeadingZeroYear(t: string)
    requires DateShape(t) && t[0] == '0' && t[1] == '0'
    ensures var u := "19" + t[2..];
            DateShape(u) && CoerceDate(Plain(Str(t))) == CoerceDate(Plain(Str(u)))
  {
    var u := "19" + t[2..];
    CenturyFields(t);
    SameDay(t, u);
    ShapedCoerce(t);
    ShapedCoerce(u);
  }

  /** Two dates whose years differ by 1900, below year 100, fall on the same day. */
  lemma SameDay(t: string, u: string)
    requires DateShape(t) && DateShape(u) && YearField(t) <= 99 && YearField(u) == 1900 + YearField(t)
    requires MonthField(u) == MonthField(t) && DayField(u) == DayField(t)
    ensures DateOnlyInstant(u) == DateOnlyInstant(t)
  {
    var y, m, d := YearField(t), MonthField(t) - 1, DayField(t);
    assert TimeClip(UtcNoon(y, m, d)) == TimeClip(UtcNoon(1900 + y, m, d)) by {
      TwentiethCentury(y, m, d);
    }
  }

  /** A string that already has the date shape is read as noon UTC of its day. */
  lemma ShapedCoerce(t: string)
    requires DateShape(t)
    ensures CoerceDate(Plain(Str(t))) == DateOnlyInstant(t)
  {
    TrimOfTrimmed(t);
    assert DateOnly(t);
  }

  /** Writing "19" over a "00" year adds 1900 to the year field and keeps the rest. */
  lemma CenturyFields(t: string)
    requires DateShape(t) && t[0] == '0' && t[1] == '0'
    ensures var u := "19" + t[2..];
            DateShape(u) && YearField(t) <= 99 && YearField(u) == 1900 + YearField(t)
            && MonthField(u) == MonthField(t) && DayField(u) == DayField(t)
  {
    var u := "19" + t[2..];
    assert forall k :: 2 <= k < 10 ==> u[k] == t[k];
  }

  lemma TwentiethCentury(year: int, monthIndex: int, day: int)
    requires 0 <= year <= 99
    ensures UtcDay(year, monthIndex, day) == UtcDay(1900 + year, monthIndex, day)
    ensures TimeClip(UtcNoon(year, monthIndex, day)) == TimeClip(UtcNoon(1900 + year, monthIndex, day))
  {
  }

  /** A string with a time part, or a one-digit month, goes to the built-in parser. */
  lemma NotDateOnly()
    ensures CoerceDate(Plain(Str("2024-03-05T10:00"))).Parsed?
    ensures CoerceDate(Plain(Str("2024-3-05"))).Parsed?
  {
    TrimOfTrimmed("2024-03-05T10:00");
    TrimOfTrimmed("2024-3-05");
  }

  /* ---------------- Formatters ---------------- */

  /** The fields an `Intl.DateTimeFormat` of the page shows: the date, the time, or both. */
  datatype Style = DateStyle | TimeStyle | DateTimeStyle

  /** A formatter's answer: fixed text, or the Eastern rendering of a date in a style (not modelled). */
  datatype Display = Text(s: string) | Eastern(at: Coerced, style: Style)

  /**
   * Rendering a coerced date: an invalid date makes the formatter throw,
   * which is caught and answered with the fallback text.
   */
  function Render(c: Coerced, style: Style, fallback: string): (r: Display)
    ensures c == InvalidDate ==> r == Text(fallback)
    ensures c != InvalidDate ==> r == Eastern(c, style)
  {
    if c == InvalidDate then Text(fallback) else Eastern(c, style)
  }

  /**
   * `formatDateEastern(dateLike = new Date())`: the default applies when the
   * argument is omitted or `undefined`, and is the current time `now`; any
   * other falsy argument gives "".
   */
  function FormatDateEastern(arg: Option<DateLike>, now: int): (r: Display)
    ensures arg.None? || arg.value == Plain(Undefined) ==> r == Eastern(Instant(now), DateStyle)
    ensures arg.Some? && arg.value != Plain(Undefined) && !TruthyDate(arg.value) ==> r == Text("")
    ensures arg.Some? && TruthyDate(arg.value) ==> r == Render(CoerceDate(arg.value), DateStyle, "")
  {
    var d := if arg.Some? && arg.value != Plain(Undefined) then arg.value else DateObject(now);
    if !TruthyDate(d) then Text("")
    else Render(CoerceDate(d), DateStyle, "")
  }

  /** `formatTimeEastern(dateLike)`: a falsy input gives "—". */
  function FormatTimeEastern(d: DateLike): (r: Display)
    ensures !TruthyDate(d) ==> r == Text("—")
    ensures TruthyDate(d) ==> r == Render(CoerceDate(d), TimeStyle, "—")
  {
    if !TruthyDate(d) then Text("—") else Render(CoerceDate(d), TimeStyle, "—")
  }

  /** `formatDateTimeEastern(dateLike)`: a falsy input gives "—". */
  function FormatDateTimeEastern(d: DateLike): (r: Display)
    ensures !TruthyDate(d) ==> r == Text("—")
    ensures TruthyDate(d) ==> r == Render(CoerceDate(d), DateTimeStyle, "—")
  {
    if !TruthyDate(d) then Text("—") else Render(CoerceDate(d), DateTimeStyle, "—")
  }

  /**
   * On a date that coerces to a valid instant the three formatters show
   * that instant in three different styles; on a falsy one the time and
   * date-time formatters agree on the dash and the date formatter shows "".
   */
  lemma FormattersDiffer(d: DateLike, now: int)
    requires TruthyDate(d) && CoerceDate(d) != InvalidDate
    ensures FormatDateEastern(Some(d), now) != FormatTimeEastern(d)
    ensures FormatTimeEastern(d) != FormatDateTimeEastern(d)
    ensures FormatDateEastern(Some(d), now) != FormatDateTimeEastern(d)
    ensures FormatTimeEastern(d).Eastern? && FormatTimeEastern(d).at == CoerceDate(d)
  {
  }

  /** A missing clock-out (null) is shown as a dash, and so is the epoch timestamp 0, which is falsy. */
  lemma FalsyTimesShowDash()
    ensures FormatTimeEastern(Plain(Null)) == Text("—")
    ensures FormatTimeEastern(Plain(Num(0))) == Text("—")
    ensures FormatDateEastern(Some(Plain(Null)), 0) == Text("")
    ensures FormatDateEastern(Some(Plain(Undefined)), 0) == Eastern(Instant(0), DateStyle)
  {
  }
}
