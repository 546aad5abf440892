/**
 * `Event::parse_japanese_date`: read a start date as Calendar.app writes it in a
 * Japanese locale, for example `2024年1月5日 金曜日 09:05:00`.
 *
 * The pattern is `(\d{4})年(\d{1,2})月(\d{1,2})日 (?:月|火|水|木|金|土|日)曜日 (\d{2}):(\d{2}):(\d{2})`,
 * searched anywhere in the text. The six captures are parsed as numbers and the date
 * and time are then checked the way the `time` crate checks them.
 */
module JapaneseDate {
  import opened Chars
  import opened Wrappers
  import opened Strings
  import opened Decimal

  // ----- Dates and times -----

  /** A `PrimitiveDateTime`: a calendar date and a time of day, without a time zone. */
  datatype DateTime = DateTime(year: int, month: nat, day: nat, hour: nat, minute: nat, second: nat)

  /** The components the `time` crate range-checks, in the order the source reaches them. */
  datatype Component = Month | Year | Day | Hour | Minute | Second

  /** Why a date string is rejected. */
  datatype DateError = FormatInvalid | OutOfRange(component: Component)

  function Rank(c: Component): nat {
    match c
    case Month => 0
    case Year => 1
    case Day => 2
    case Hour => 3
    case Minute => 4
    case Second => 5
  }

  /** The Gregorian leap-year rule. */
  predicate IsLeapYear(year: int): (leap: bool)
    ensures leap ==> year % 4 == 0
    ensures year % 400 == 0 ==> leap
    ensures year % 4 == 0 && year % 100 != 0 ==> leap
    ensures year % 100 == 0 && year % 400 != 0 ==> !leap
  {
    CenturyDivisors(year);
    year % 4 == 0 && (year % 100 != 0 || year % 400 == 0)
  }

  /** A multiple of 400 is a multiple of 4. */
  lemma CenturyDivisors(year: int)
    ensures year % 400 == 0 ==> year % 4 == 0
  {
    if year % 400 == 0 {
      var q := year / 400;
      assert year == 4 * (100 * q);
    }
  }

  function DaysInMonth(year: int, month: nat): (n: nat)
    requires 1 <= month <= 12
    ensures 28 <= n <= 31
    ensures n == 29 <==> month == 2 && IsLeapYear(year)
  {
    if month == 2 then (if IsLeapYear(year) then 29 else 28)
    else if month == 4 || month == 6 || month == 9 || month == 11 then 30
    else 31
  }

  /** The range check the `time` crate applies to one component. */
  predicate InRange(dt: DateTime, c: Component): (ok: bool)
    ensures c == Day && ok ==> 1 <= dt.day && (1 <= dt.month <= 12 ==> dt.day <= 31)
    ensures c == Day && 1 <= dt.day <= 28 ==> ok
    ensures c == Month && ok ==> 1 <= dt.month <= 12
  {
    match c
    case Month => 1 <= dt.month <= 12
    case Year => -9999 <= dt.year <= 9999
    case Day => 1 <= dt.day && (1 <= dt.month <= 12 ==> dt.day <= DaysInMonth(dt.year, dt.month))
    case Hour => dt.hour <= 23
    case Minute => dt.minute <= 59
    case Second => dt.second <= 59
  }

  predicate IsValidDateTime(dt: DateTime) {
    forall c: Component :: InRange(dt, c)
  }

  /**
   * `Month::try_from`, then `Date::from_calendar_date` (year, then day), then
   * `Time::from_hms` (hour, minute, second): the first component out of range is
   * the error, and a date and time that pass every check come back unchanged.
   */
  function CheckDateTime(dt: DateTime): (r: Result<DateTime, DateError>)
    ensures r.Ok? <==> IsValidDateTime(dt)
    ensures r.Ok? ==> r.value == dt
    ensures r.Err? ==> r.error.OutOfRange? && !InRange(dt, r.error.component)
    ensures r.Err? ==> forall c: Component :: Rank(c) < Rank(r.error.component) ==> InRange(dt, c)
  {
    if !InRange(dt, Month) then Err(OutOfRange(Month))
    else if !InRange(dt, Year) then Err(OutOfRange(Year))
    else if !InRange(dt, Day) then Err(OutOfRange(Day))
    else if !InRange(dt, Hour) then Err(OutOfRange(Hour))
    else if !InRange(dt, Minute) then Err(OutOfRange(Minute))
    else if !InRange(dt, Second) then Err(OutOfRange(Second))
    else Ok(dt)
  }

  // ----- The text of a date -----

  predicate IsWeekday(c: char) {
    c == '月' || c == '火' || c == '水' || c == '木' || c == '金' || c == '土' || c == '日'
  }

  /** Between `lo` and `hi` ASCII digits. */
  predicate IsDigits(s: string, lo: nat, hi: nat) {
    lo <= |s| <= hi && AllDigits(s)
  }

  /** The captures `(\d{2}):(\d{2}):(\d{2})` of the clock. */
  datatype Clock = Clock(hour: string, minute: string, second: string)

  /** The six capture groups of the pattern. */
  datatype Captures = Captures(year: string, month: string, day: string, clock: Clock)

  predicate IsClock(k: Clock) {
    IsDigits(k.hour, 2, 2) && IsDigits(k.minute, 2, 2) && IsDigits(k.second, 2, 2)
  }

  /** The widths the pattern allows: `\d{4}`, `\d{1,2}` twice and `\d{2}` three times. */
  predicate IsCaptures(c: Captures) {
    IsDigits(c.year, 4, 4) && IsDigits(c.month, 1, 2) && IsDigits(c.day, 1, 2) && IsClock(c.clock)
  }

  /** `HH:MM:SS` followed by `rest`. */
  function ClockThen(k: Clock, rest: string): string {
    k.hour + (":" + (k.minute + (":" + (k.second + rest))))
  }

  /** ` X曜日 ` and the clock, followed by `rest`. */
  function WeekdayThen(w: char, k: Clock, rest: string): string {
    [' ', w, '曜', '日', ' '] + ClockThen(k, rest)
  }

  function DayThen(d: string, w: char, k: Clock, rest: string): string {
    d + ("日" + WeekdayThen(w, k, rest))
  }

  function MonthThen(m: string, d: string, w: char, k: Clock, rest: string): string {
    m + ("月" + DayThen(d, w, k, rest))
  }

  /** The text the pattern matches, for captures `c` and weekday `w`, followed by `rest`. */
  function DateThen(c: Captures, w: char, rest: string): string {
    c.year + ("年" + MonthThen(c.month, c.day, w, c.clock, rest))
  }

  /** The pattern matches at the start of `t`. */
  ghost predicate DateHere(t: string) {
    exists c: Captures, w: char, rest: string :: IsCaptures(c) && IsWeekday(w) && t == DateThen(c, w, rest)
  }

  ghost predicate DateAt(s: string, i: nat) {
    i <= |s| && DateHere(s[i..])
  }

  // ----- The matcher -----

  /** What the matcher read after the day: the weekday, the clock, and the text after the match. */
  datatype Tail = Tail(weekday: char, clock: Clock, rest: string)

  /** What the matcher read: the captures, the weekday, and the text after the match. */
  datatype Reading = Reading(captures: Captures, weekday: char, rest: string)

  /** `(\d{2}):(\d{2}):(\d{2})` at the start of `t`. */
  function ClockHere(t: string): (r: Option<Clock>)
    ensures r.Some? ==> |t| >= 8 && IsClock(r.value)
  {
    if && 8 <= |t| && IsDigit(t[0]) && IsDigit(t[1]) && t[2] == ':' && IsDigit(t[3]) && IsDigit(t[4])
       && t[5] == ':' && IsDigit(t[6]) && IsDigit(t[7])
    then Some(Clock(t[..2], t[3..5], t[6..8]))
    else None
  }

  /** ` (?:月|火|水|木|金|土|日)曜日 ` and the clock at the start of `t`. */
  function WeekdayHere(t: string): (r: Option<Tail>)
    ensures r.Some? ==> IsWeekday(r.value.weekday) && IsClock(r.value.clock)
  {
    if 5 <= |t| && t[0] == ' ' && IsWeekday(t[1]) && t[2] == '曜' && t[3] == '日' && t[4] == ' ' then
      match ClockHere(t[5..])
      case None => None
      case Some(k) => Some(Tail(t[1], k, t[5..][8..]))
    else None
  }

  /** `(\d{1,2})` and then `marker`: two digits when the marker follows them, else one. */
  function ShortNumberLength(t: string, marker: char): (r: Option<nat>)
    requires !IsDigit(marker)
    ensures r.Some? ==> 1 <= r.value <= 2 && r.value < |t| && t[r.value] == marker && IsDigits(t[..r.value], 1, 2)
  {
    if 3 <= |t| && IsDigit(t[0]) && IsDigit(t[1]) && t[2] == marker then Some(2)
    else if 2 <= |t| && IsDigit(t[0]) && t[1] == marker then Some(1)
    else None
  }

  /** `(\d{1,2})日` and the rest of the pattern at the start of `t`. */
  function DayHere(t: string): (r: Option<(string, Tail)>)
    ensures r.Some? ==> IsDigits(r.value.0, 1, 2) && IsWeekday(r.value.1.weekday) && IsClock(r.value.1.clock)
  {
    match ShortNumberLength(t, '日')
    case None => None
    case Some(n) =>
      match WeekdayHere(t[n + 1..])
      case None => None
      case Some(g) => Some((t[..n], g))
  }

  /** `(\d{1,2})月` and the rest of the pattern at the start of `t`. */
  function MonthHere(t: string): (r: Option<(string, string, Tail)>)
    ensures r.Some? ==> IsDigits(r.value.0, 1, 2) && IsDigits(r.value.1, 1, 2)
    ensures r.Some? ==> IsWeekday(r.value.2.weekday) && IsClock(r.value.2.clock)
  {
    match ShortNumberLength(t, '月')
    case None => None
    case Some(n) =>
      match DayHere(t[n + 1..])
      case None => None
      case Some(g) => Some((t[..n], g.0, g.1))
  }

  /** The whole pattern at the start of `t`, read left to right: year, month, day, weekday, clock. */
  function MatchHere(t: string): (r: Option<Reading>)
    ensures r.Some? ==> IsCaptures(r.value.captures) && IsWeekday(r.value.weekday)
  {
    if 5 <= |t| && AllDigits(t[..4]) && t[4] == '年' then
      match MonthHere(t[5..])
      case None => None
      case Some(g) => Some(Reading(Captures(t[..4], g.0, g.1, g.2.clock), g.2.weekday, g.2.rest))
    else None
  }

  // ----- What the matcher read is what the text says -----

  /** A string is what comes before index `n`, the character there, and what comes after. */
  lemma Around(t: string, n: nat)
    requires n < |t|
    ensures t == t[..n] + ([t[n]] + t[n + 1..])
  {
  }

  lemma ClockSound(t: string)
    requires ClockHere(t).Some?
    ensures t == ClockThen(ClockHere(t).value, t[8..])
  {
    var y := t[3..];
    Around(y, 2);
    assert y[..2] == t[3..5] && y[3..] == t[6..];
    assert t[6..] == t[6..8] + t[8..];
    Around(t, 2);
  }

  lemma WeekdaySound(t: string)
    requires WeekdayHere(t).Some?
    ensures var g := WeekdayHere(t).value; t == WeekdayThen(g.weekday, g.clock, g.rest)
  {
    ClockSound(t[5..]);
    assert t == t[..5] + t[5..];
    assert t[..5] == [' ', t[1], '曜', '日', ' '];
  }

  lemma DaySound(t: string)
    requires DayHere(t).Some?
    ensures var g := DayHere(t).value; t == DayThen(g.0, g.1.weekday, g.1.clock, g.1.rest)
  {
    var n := ShortNumberLength(t, '日').value;
    WeekdaySound(t[n + 1..]);
    Around(t, n);
  }

  lemma MonthSound(t: string)
    requires MonthHere(t).Some?
    ensures var g := MonthHere(t).value; t == MonthThen(g.0, g.1, g.2.weekday, g.2.clock, g.2.rest)
  {
    var n := ShortNumberLength(t, '月').value;
    DaySound(t[n + 1..]);
    Around(t, n);
  }

  /** The text is exactly the spelling of what the matcher read from it. */
  lemma MatchSound(t: string)
    requires MatchHere(t).Some?
    ensures var g := MatchHere(t).value; t == DateThen(g.captures, g.weekday, g.rest)
  {
    MonthSound(t[5..]);
    Around(t, 4);
  }

  // ----- How the matcher reads a date -----

  lemma ReadClock(k: Clock, rest: string)
    requires IsClock(k)
    ensures ClockHere(ClockThen(k, rest)) == Some(k)
    ensures ClockThen(k, rest)[8..] == rest
  {
    var y := ClockThen(k, rest);
    assert y[..2] == k.hour;
    assert y[3..5] == k.minute;
    assert y[6..8] == k.second;
  }

  lemma ReadWeekday(w: char, k: Clock, rest: string)
    requires IsWeekday(w) && IsClock(k)
    ensures WeekdayHere(WeekdayThen(w, k, rest)) == Some(Tail(w, k, rest))
  {
    var x := WeekdayThen(w, k, rest);
    assert x[5..] == ClockThen(k, rest);
    ReadClock(k, rest);
  }

  lemma ReadShortNumber(n: string, marker: char, after: string)
    requires !IsDigit(marker) && IsDigits(n, 1, 2)
    ensures ShortNumberLength(n + ([marker] + after), marker) == Some(|n|)
    ensures (n + ([marker] + after))[..|n|] == n && (n + ([marker] + after))[|n| + 1..] == after
  {
    var t := n + ([marker] + after);
    assert t[|n| + |[marker]|..] == after;
  }

  lemma ReadDay(d: string, w: char, k: Clock, rest: string)
    requires IsDigits(d, 1, 2) && IsWeekday(w) && IsClock(k)
    ensures DayHere(DayThen(d, w, k, rest)) == Some((d, Tail(w, k, rest)))
  {
    ReadShortNumber(d, '日', WeekdayThen(w, k, rest));
    ReadWeekday(w, k, rest);
  }

  lemma ReadMonth(m: string, d: string, w: char, k: Clock, rest: string)
    requires IsDigits(m, 1, 2) && IsDigits(d, 1, 2) && IsWeekday(w) && IsClock(k)
    ensures MonthHere(MonthThen(m, d, w, k, rest)) == Some((m, d, Tail(w, k, rest)))
  {
    ReadShortNumber(m, '月', DayThen(d, w, k, rest));
    ReadDay(d, w, k, rest);
  }

  /** The matcher reads back exactly the captures, weekday and following text a date was written from. */
  lemma ReadDate(c: Captures, w: char, rest: string)
    requires IsCaptures(c) && IsWeekday(w)
    ensures MatchHere(DateThen(c, w, rest)) == Some(Reading(c, w, rest))
  {
    var t := DateThen(c, w, rest);
    assert t[..4] == c.year && t[4] == '年';
    assert t[5..] == MonthThen(c.month, c.day, w, c.clock, rest);
    ReadMonth(c.month, c.day, w, c.clock, rest);
  }

  /** The matcher finds a date exactly where the pattern matches. */
  lemma MatchHereExactly(t: string)
    ensures MatchHere(t).Some? <==> DateHere(t)
  {
    var r := MatchHere(t);
    if r.Some? {
      MatchSound(t);
      assert IsCaptures(r.value.captures) && IsWeekday(r.value.weekday) && t == DateThen(r.value.captures, r.value.weekday, r.value.rest);
    }
    if DateHere(t) {
      var c: Captures, w: char, rest: string :| IsCaptures(c) && IsWeekday(w) && t == DateThen(c, w, rest);
      ReadDate(c, w, rest);
    }
  }

  /** The matcher succeeds at `i`; by `MatchHereExactly` this is where the pattern matches. */
  predicate DateStartsAt(s: string, i: nat) {
    i <= |s| && MatchHere(s[i..]).Some?
  }

  lemma DateStartsExactly(s: string, i: nat)
    ensures DateStartsAt(s, i) <==> DateAt(s, i)
  {
    if i <= |s| {
      MatchHereExactly(s[i..]);
    }
  }

  /** The leftmost index at or after `from` where the matcher succeeds. */
  function FirstDateFrom(s: string, from: nat): (r: Option<nat>)
    requires from <= |s|
    ensures r.Some? ==> from <= r.value <= |s| && DateStartsAt(s, r.value)
    ensures r.Some? ==> forall j: nat :: from <= j < r.value ==> !DateStartsAt(s, j)
    ensures r.None? ==> forall j: nat :: from <= j <= |s| ==> !DateStartsAt(s, j)
    decreases |s| - from
  {
    if MatchHere(s[from..]).Some? then Some(from)
    else if from == |s| then None
    else
      var r := FirstDateFrom(s, from + 1);
      SearchStep(s, from, r);
      r
  }

  /** No match at `from` extends "no match before the result" from `from + 1` down to `from`. */
  lemma SearchStep(s: string, from: nat, r: Option<nat>)
    requires from < |s| && !MatchHere(s[from..]).Some?
    requires r.Some? ==> forall j: nat :: from + 1 <= j < r.value ==> !DateStartsAt(s, j)
    requires r.None? ==> forall j: nat :: from + 1 <= j <= |s| ==> !DateStartsAt(s, j)
    ensures r.Some? ==> forall j: nat :: from <= j < r.value ==> !DateStartsAt(s, j)
    ensures r.None? ==> forall j: nat :: from <= j <= |s| ==> !DateStartsAt(s, j)
  {
  }

  /** The first date is at `i` when the matcher succeeds there and nowhere before. */
  lemma FirstDateIs(s: string, i: nat)
    requires DateStartsAt(s, i) && forall j: nat :: j < i ==> !DateStartsAt(s, j)
    ensures FirstDateFrom(s, 0) == Some(i)
  {
    var r := FirstDateFrom(s, 0);
    assert r.Some? && r.value <= i;
    assert DateStartsAt(s, r.value);
  }

  // ----- Parsing -----

  /** The numbers the six captures denote; each `parse` succeeds because a capture is one to four ASCII digits. */
  function ValuesOf(c: Captures): (dt: DateTime)
    requires IsCaptures(c)
    ensures dt.year < 10000
    ensures dt.month < 100 && dt.day < 100
    ensures dt.hour < 100 && dt.minute < 100 && dt.second < 100
  {
    DateTime(DigitsValue(c.year), DigitsValue(c.month), DigitsValue(c.day), DigitsValue(c.clock.hour), DigitsValue(c.clock.minute), DigitsValue(c.clock.second))
  }

  /** `c` are the captures of the leftmost match in `s`, which starts at `i`. */
  ghost predicate LeftmostCaptures(s: string, i: nat, c: Captures) {
    && i <= |s|
    && (forall j: nat :: j < i ==> !DateAt(s, j))
    && IsCaptures(c)
    && exists w: char, rest: string :: IsWeekday(w) && s[i..] == DateThen(c, w, rest)
  }

  lemma LeftmostFound(s: string, i: nat, g: Reading)
    requires i <= |s| && MatchHere(s[i..]) == Some(g)
    requires forall j: nat :: j < i ==> !DateStartsAt(s, j)
    ensures DateAt(s, i) && LeftmostCaptures(s, i, g.captures)
  {
    DateStartsExactly(s, i);
    forall j: nat | j < i
      ensures !DateAt(s, j)
    {
      DateStartsExactly(s, j);
    }
    MatchSound(s[i..]);
  }

  /**
   * `parse_japanese_date`: the captures of the leftmost match, checked as a date and
   * time, or `FormatInvalid` when there is no match (`ParseJapaneseDateSpec`).
   */
  function ParseJapaneseDate(s: string): (r: Result<DateTime, DateError>)
    ensures r.Ok? ==> IsValidDateTime(r.value) && 0 <= r.value.year <= 9999
  {
    match FirstDateFrom(s, 0)
    case None => Err(FormatInvalid)
    case Some(i) => CheckDateTime(ValuesOf(MatchHere(s[i..]).value.captures))
  }

  /**
   * `FormatInvalid` exactly when the pattern matches nowhere; otherwise the result is the
   * check of the numbers captured by the leftmost match.
   */
  lemma ParseJapaneseDateSpec(s: string)
    ensures ParseJapaneseDate(s) == Err(FormatInvalid) <==> forall i: nat :: i <= |s| ==> !DateAt(s, i)
    ensures ParseJapaneseDate(s) != Err(FormatInvalid) ==>
      exists i: nat, c: Captures :: LeftmostCaptures(s, i, c) && ParseJapaneseDate(s) == CheckDateTime(ValuesOf(c))
  {
    match FirstDateFrom(s, 0)
    case None =>
      forall i: nat | i <= |s|
        ensures !DateAt(s, i)
      {
        DateStartsExactly(s, i);
      }
    case Some(i) =>
      var g := MatchHere(s[i..]).value;
      LeftmostFound(s, i, g);
  }

  // ----- Writing a date -----

  /** A date and time whose numbers fit the widths of the pattern. */
  predicate FitsPattern(dt: DateTime) {
    0 <= dt.year <= 9999 && dt.month < 100 && dt.day < 100 && dt.hour < 100 && dt.minute < 100 && dt.second < 100
  }

  /** The captures a date is written with: a four-digit year, month and day without padding, a two-digit clock. */
  function FieldsOf(dt: DateTime): (c: Captures)
    requires FitsPattern(dt)
    ensures IsCaptures(c) && ValuesOf(c) == dt
  {
    ShowNatShort(dt.month);
    ShowNatShort(dt.day);
    FieldsValues(dt);
    Captures(PadNat(dt.year, 4), ShowNat(dt.month), ShowNat(dt.day), Clock(PadNat(dt.hour, 2), PadNat(dt.minute, 2), PadNat(dt.second, 2)))
  }

  lemma FieldsValues(dt: DateTime)
    requires FitsPattern(dt)
    ensures DigitsValue(PadNat(dt.year, 4)) == dt.year
    ensures DigitsValue(ShowNat(dt.month)) == dt.month && DigitsValue(ShowNat(dt.day)) == dt.day
    ensures DigitsValue(PadNat(dt.hour, 2)) == dt.hour
    ensures DigitsValue(PadNat(dt.minute, 2)) == dt.minute
    ensures DigitsValue(PadNat(dt.second, 2)) == dt.second
  {
    PadNatValue(dt.year, 4);
    ShowNatValue(dt.month);
    ShowNatValue(dt.day);
    PadNatValue(dt.hour, 2);
    PadNatValue(dt.minute, 2);
    PadNatValue(dt.second, 2);
  }

  lemma ShowNatShort(n: nat)
    requires n < 100
    ensures |ShowNat(n)| <= 2
  {
  }

  /** A date as Calendar.app writes it in a Japanese locale, with weekday `w`. */
  function FormatJapaneseDate(dt: DateTime, w: char): string
    requires FitsPattern(dt) && IsWeekday(w)
  {
    DateThen(FieldsOf(dt), w, [])
  }

  /** Text before a date that holds no digit cannot start a match. */
  predicate NoDigits(s: string) {
    forall k :: 0 <= k < |s| ==> !IsDigit(s[k])
  }

  /** A match starts with a digit of the year. */
  lemma DigitAtDate(s: string, j: nat)
    ensures DateAt(s, j) ==> j < |s| && IsDigit(s[j])
  {
    if DateAt(s, j) {
      var c: Captures, w: char, rest: string :| IsCaptures(c) && IsWeekday(w) && s[j..] == DateThen(c, w, rest);
      assert s[j..][0] == c.year[0];
    }
  }

  /** After digit-free text, a date is read with the captures it was written with. */
  lemma ReadDateAfter(pre: string, c: Captures, w: char, rest: string)
    requires NoDigits(pre) && IsCaptures(c) && IsWeekday(w)
    ensures ParseJapaneseDate(pre + DateThen(c, w, rest)) == CheckDateTime(ValuesOf(c))
  {
    var s := pre + DateThen(c, w, rest);
    var i := |pre|;
    forall j: nat | j < i
      ensures !DateStartsAt(s, j)
    {
      assert s[j] == pre[j];
      DigitAtDate(s, j);
      DateStartsExactly(s, j);
    }
    assert s[i..] == DateThen(c, w, rest);
    ReadDate(c, w, rest);
    FirstDateIs(s, i);
  }

  /**
   * A written date is read back, whatever digit-free text comes before it and whatever
   * follows it: the result is the `time` crate's verdict on the date that was written.
   */
  lemma ReadWrittenDate(pre: string, dt: DateTime, w: char, rest: string)
    requires NoDigits(pre) && FitsPattern(dt) && IsWeekday(w)
    ensures ParseJapaneseDate(pre + DateThen(FieldsOf(dt), w, rest)) == CheckDateTime(dt)
  {
    ReadDateAfter(pre, FieldsOf(dt), w, rest);
  }

  /** A date written on its own is read back and checked. */
  lemma ParseWritten(dt: DateTime, w: char)
    requires FitsPattern(dt) && IsWeekday(w)
    ensures ParseJapaneseDate(FormatJapaneseDate(dt, w)) == CheckDateTime(dt)
  {
    assert [] + DateThen(FieldsOf(dt), w, []) == FormatJapaneseDate(dt, w);
    ReadWrittenDate([], dt, w, []);
  }

  /** Round trip: a valid date and time, written out, parses back to itself. */
  lemma ParseFormatted(dt: DateTime, w: char)
    requires FitsPattern(dt) && IsWeekday(w) && IsValidDateTime(dt)
    ensures ParseJapaneseDate(FormatJapaneseDate(dt, w)) == Ok(dt)
  {
    ParseWritten(dt, w);
  }

  /** The weekday is matched but not checked against the date: any of the seven gives the same result. */
  lemma WeekdayIgnored(dt: DateTime, w1: char, w2: char)
    requires FitsPattern(dt) && IsWeekday(w1) && IsWeekday(w2)
    ensures ParseJapaneseDate(FormatJapaneseDate(dt, w1)) == ParseJapaneseDate(FormatJapaneseDate(dt, w2))
  {
    ParseWritten(dt, w1);
    ParseWritten(dt, w2);
  }

  /** 29 February is accepted exactly in leap years; otherwise the day is out of range. */
  lemma February29(dt: DateTime, w: char)
    requires dt.month == 2 && dt.day == 29 && IsWeekday(w)
    requires 0 <= dt.year <= 9999 && dt.hour <= 23 && dt.minute <= 59 && dt.second <= 59
    ensures ParseJapaneseDate(FormatJapaneseDate(dt, w)) == if IsLeapYear(dt.year) then Ok(dt) else Err(OutOfRange(Day))
  {
    ParseWritten(dt, w);
    LeapDayChecked(dt);
  }

  lemma LeapDayChecked(dt: DateTime)
    requires dt.month == 2 && dt.day == 29
    requires 0 <= dt.year <= 9999 && dt.hour <= 23 && dt.minute <= 59 && dt.second <= 59
    ensures CheckDateTime(dt) == if IsLeapYear(dt.year) then Ok(dt) else Err(OutOfRange(Day))
  {
    assert InRange(dt, Month) && InRange(dt, Year);
    assert InRange(dt, Day) <==> IsLeapYear(dt.year);
  }

  /** The month is checked before the day and the time: a month past 12 is reported whatever else is wrong. */
  lemma MonthCheckedFirst(dt: DateTime, w: char)
    requires FitsPattern(dt) && IsWeekday(w) && dt.month > 12
    ensures ParseJapaneseDate(FormatJapaneseDate(dt, w)) == Err(OutOfRange(Month))
  {
    ParseWritten(dt, w);
  }
}
