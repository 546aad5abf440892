/**
 * `Event::get_events` and `Event::parse_event`: the events of one Apple Calendar,
 * read from the text an AppleScript returns through `osascript`.
 *
 * The script writes each event as `id|||title|||start date` and puts `###` between
 * events. The Rust side trims that text, splits it on `###`, drops empty pieces, and
 * parses each piece; a piece that does not parse makes `unwrap` panic.
 */
module AppleCalendar {
  import opened Chars
  import opened Wrappers
  import opened Strings
  import opened JapaneseDate

  const EventSeparator: string := "###"
  const PartsSeparator: string := "|||"

  /** An event as `get_events` returns it. */
  datatype CalendarEvent = CalendarEvent(id: string, title: string, startTime: DateTime)

  /** Why a record was rejected; the source keeps only a message for each. */
  datatype ParseFailure = WrongPartCount(found: nat) | BadDate(reason: DateError)

  /** The module's `Error`: the script failed, or its output did not parse. */
  datatype Error = ExecutionError(message: string) | ParseError(failure: ParseFailure)

  // ----- One record -----

  /**
   * `parse_event`: a record must split on `|||` into exactly three parts, the id, the
   * title and the start date; the date is then parsed, and its error passed on.
   */
  function ParseEvent(record: string): (r: Result<CalendarEvent, Error>)
    ensures r.Err? ==> r.error.ParseError?
    ensures var parts := Split(record, PartsSeparator);
      |parts| != 3 ==> r == Err(ParseError(WrongPartCount(|parts|)))
    ensures var parts := Split(record, PartsSeparator);
      |parts| == 3 && ParseJapaneseDate(parts[2]).Err? ==> r == Err(ParseError(BadDate(ParseJapaneseDate(parts[2]).error)))
    ensures var parts := Split(record, PartsSeparator);
      r.Ok? ==> && |parts| == 3 && r.value.id == parts[0] && r.value.title == parts[1]
                && ParseJapaneseDate(parts[2]) == Ok(r.value.startTime)
    ensures r.Ok? ==> !Contains(r.value.id, PartsSeparator) && !Contains(r.value.title, PartsSeparator)
  {
    var parts := Split(record, PartsSeparator);
    if |parts| != 3 then Err(ParseError(WrongPartCount(|parts|)))
    else
      match ParseJapaneseDate(parts[2])
      case Err(e) => Err(ParseError(BadDate(e)))
      case Ok(start) => Ok(CalendarEvent(parts[0], parts[1], start))
  }

  /** The record the script writes for one event: id, title and date text, separated by `|||`. */
  function RecordText(id: string, title: string, dateText: string): (record: string)
    ensures |record| == |id| + |title| + |dateText| + 2 * |PartsSeparator|
  {
    id + PartsSeparator + (title + PartsSeparator + dateText)
  }

  /**
   * A record that parses is the id, the title and a date text joined by `|||`; neither
   * the id nor the title holds `|||`, and the date text parses to the start time.
   */
  lemma ParsedRecordShape(record: string)
    requires ParseEvent(record).Ok?
    ensures var e := ParseEvent(record).value;
      exists dateText :: record == RecordText(e.id, e.title, dateText) && ParseJapaneseDate(dateText) == Ok(e.startTime)
  {
    var parts := Split(record, PartsSeparator);
    JoinSplit(record, PartsSeparator);
    assert parts == [parts[0], parts[1], parts[2]];
    JoinThree(parts[0], parts[1], parts[2], PartsSeparator);
  }

  /** A field written before `|||` that is split back out whole: it holds no `|||` and does not end with `|`. */
  predicate PlainField(f: string) {
    !Contains(f, PartsSeparator) && (f == [] || f[|f| - 1] != '|')
  }

  /** The three pieces of a record with a plain id and title and a date text without `|||` are read back verbatim. */
  lemma SplitRecord(id: string, title: string, dateText: string)
    requires PlainField(id) && PlainField(title) && !Contains(dateText, PartsSeparator)
    ensures Split(RecordText(id, title, dateText), PartsSeparator) == [id, title, dateText]
  {
    var tail := title + PartsSeparator + dateText;
    UniformClear(title, PartsSeparator);
    SplitConcatClear(title, PartsSeparator, dateText);
    SplitWhole(dateText, PartsSeparator);
    assert Split(tail, PartsSeparator) == [title, dateText];
    UniformClear(id, PartsSeparator);
    SplitConcatClear(id, PartsSeparator, tail);
  }

  /** Such a record is read as the date text's parse decides: the event, or the date's error. */
  lemma ReadRecord(id: string, title: string, dateText: string)
    requires PlainField(id) && PlainField(title) && !Contains(dateText, PartsSeparator)
    ensures ParseJapaneseDate(dateText).Ok? ==>
      ParseEvent(RecordText(id, title, dateText)) == Ok(CalendarEvent(id, title, ParseJapaneseDate(dateText).value))
    ensures ParseJapaneseDate(dateText).Err? ==>
      ParseEvent(RecordText(id, title, dateText)) == Err(ParseError(BadDate(ParseJapaneseDate(dateText).error)))
  {
    SplitRecord(id, title, dateText);
  }

  /** A record one of whose fields holds `|||` has three non-overlapping occurrences of it, so four parts or more. */
  lemma SeparatorsInRecord(id: string, title: string, dateText: string)
    requires Contains(id, PartsSeparator) || Contains(title, PartsSeparator) || Contains(dateText, PartsSeparator)
    ensures |Split(RecordText(id, title, dateText), PartsSeparator)| >= 4
  {
    if Contains(id, PartsSeparator) {
      var k: nat :| k <= |id| && OccursAt(id, PartsSeparator, k);
      SeparatorInIdAt(id, title, dateText, k);
    } else if Contains(title, PartsSeparator) {
      var k: nat :| k <= |title| && OccursAt(title, PartsSeparator, k);
      SeparatorInTitleAt(id, title, dateText, k);
    } else {
      var k: nat :| k <= |dateText| && OccursAt(dateText, PartsSeparator, k);
      SeparatorInDateAt(id, title, dateText, k);
    }
  }

  /** `|||` at position `k` of the id, then the two separators the script writes. */
  lemma SeparatorInIdAt(id: string, title: string, dateText: string, k: nat)
    requires OccursAt(id, PartsSeparator, k)
    ensures |Split(RecordText(id, title, dateText), PartsSeparator)| >= 4
  {
    var t := RecordText(id, title, dateText);
    var a := |id|;
    var b := |id| + 3 + |title|;
    assert t[a..a + 3] == PartsSeparator;
    assert t[b..b + 3] == PartsSeparator;
    assert t[k..k + 3] == id[k..k + 3];
    SplitCountsOccurrences(t, PartsSeparator, [k, a, b]);
  }

  /** The first separator, `|||` at position `k` of the title, then the second separator. */
  lemma SeparatorInTitleAt(id: string, title: string, dateText: string, k: nat)
    requires OccursAt(title, PartsSeparator, k)
    ensures |Split(RecordText(id, title, dateText), PartsSeparator)| >= 4
  {
    var t := RecordText(id, title, dateText);
    var a := |id|;
    var b := |id| + 3 + |title|;
    assert t[a..a + 3] == PartsSeparator;
    assert t[b..b + 3] == PartsSeparator;
    assert t[a + 3 + k..a + 6 + k] == title[k..k + 3];
    SplitCountsOccurrences(t, PartsSeparator, [a, a + 3 + k, b]);
  }

  /** The two separators, then `|||` at position `k` of the date text. */
  lemma SeparatorInDateAt(id: string, title: string, dateText: string, k: nat)
    requires OccursAt(dateText, PartsSeparator, k)
    ensures |Split(RecordText(id, title, dateText), PartsSeparator)| >= 4
  {
    var t := RecordText(id, title, dateText);
    var a := |id|;
    var b := |id| + 3 + |title|;
    assert t[a..a + 3] == PartsSeparator;
    assert t[b..b + 3] == PartsSeparator;
    assert t[b + 3 + k..b + 6 + k] == dateText[k..k + 3];
    SplitCountsOccurrences(t, PartsSeparator, [a, b, b + 3 + k]);
  }

  /** A record whose id, title or date text holds `|||` splits into four parts or more and is rejected. */
  lemma SeparatorInField(id: string, title: string, dateText: string)
    requires Contains(id, PartsSeparator) || Contains(title, PartsSeparator) || Contains(dateText, PartsSeparator)
    ensures var n := |Split(RecordText(id, title, dateText), PartsSeparator)|;
      n >= 4 && ParseEvent(RecordText(id, title, dateText)) == Err(ParseError(WrongPartCount(n)))
  {
    SeparatorsInRecord(id, title, dateText);
  }

  /** Text without `|` is a single part, so it is rejected. */
  lemma NoSeparatorOnePart(record: string)
    requires AvoidsChars(record, PartsSeparator)
    ensures ParseEvent(record) == Err(ParseError(WrongPartCount(1)))
  {
    SplitAvoiding(record, PartsSeparator);
  }

  // ----- The output of the script -----

  /** `.filter(|s| !s.is_empty())`: the non-empty pieces, in order. */
  function NonEmptyPieces(pieces: seq<string>): (r: seq<string>)
    ensures |r| <= |pieces|
    ensures forall x :: x in r <==> x in pieces && x != []
  {
    if pieces == [] then []
    else if pieces[0] == [] then NonEmptyPieces(pieces[1..])
    else [pieces[0]] + NonEmptyPieces(pieces[1..])
  }

  /** The filter keeps order: filtering a concatenation filters each half. */
  lemma {:induction false} NonEmptyPiecesConcat(a: seq<string>, b: seq<string>)
    ensures NonEmptyPieces(a + b) == NonEmptyPieces(a) + NonEmptyPieces(b)
  {
    if a == [] {
      assert a + b == b;
    } else {
      assert (a + b)[0] == a[0] && (a + b)[1..] == a[1..] + b;
      NonEmptyPiecesConcat(a[1..], b);
      if a[0] != [] {
        assert NonEmptyPieces(a + b) == [a[0]] + (NonEmptyPieces(a[1..]) + NonEmptyPieces(b));
      }
    }
  }

  /** Pieces that are all non-empty pass the filter unchanged. */
  lemma {:induction false} NonEmptyPiecesKeep(pieces: seq<string>)
    requires forall k :: 0 <= k < |pieces| ==> pieces[k] != []
    ensures NonEmptyPieces(pieces) == pieces
  {
    if pieces != [] {
      NonEmptyPiecesKeep(pieces[1..]);
    }
  }

  /** `result.trim().split(EVENT_SEPARATOR).filter(|s| !s.is_empty())`: the records of the output. */
  function SplitRecords(output: string): (r: seq<string>)
    ensures forall k :: 0 <= k < |r| ==> r[k] != [] && !Contains(r[k], EventSeparator)
  {
    var pieces := Split(Trim(output), EventSeparator);
    var r := NonEmptyPieces(pieces);
    assert forall k :: 0 <= k < |r| ==> r[k] in pieces;
    r
  }

  /** Output that is only whitespace holds no records. */
  lemma BlankOutputNoRecords(output: string)
    requires forall k :: 0 <= k < |output| ==> IsWhitespace(output[k])
    ensures SplitRecords(output) == []
  {
    var t := TrimStart(output);
    assert t == [];
    assert Split([], EventSeparator) == [[]];
  }

  /** `.map(|e| Event::parse_event(e))`: the result of each record, in order. */
  function Parsed(records: seq<string>): (r: seq<Result<CalendarEvent, Error>>)
    ensures |r| == |records| && forall k :: 0 <= k < |records| ==> r[k] == ParseEvent(records[k])
  {
    if records == [] then [] else [ParseEvent(records[0])] + Parsed(records[1..])
  }

  /**
   * `.unwrap()` on each result, then `.collect()`: every value, in order; otherwise the
   * error of the first result that is an error, which `unwrap` panics on.
   */
  function Unwrapped(results: seq<Result<CalendarEvent, Error>>): (r: Result<seq<CalendarEvent>, Error>)
    ensures r.Ok? <==> forall k :: 0 <= k < |results| ==> results[k].Ok?
    ensures r.Ok? ==> |r.value| == |results| && forall k :: 0 <= k < |results| ==> results[k] == Ok(r.value[k])
    ensures r.Err? ==> exists k :: FirstError(results, k) && results[k] == Err(r.error)
  {
    if results == [] then Ok([])
    else
      match results[0]
      case Err(e) =>
        assert FirstError(results, 0);
        Err(e)
      case Ok(event) =>
        match Unwrapped(results[1..])
        case Err(e) =>
          ErrorAfterHead(results, e);
          Err(e)
        case Ok(events) =>
          assert forall k :: 1 <= k < |results| ==> results[k] == results[1..][k - 1];
          Ok([event] + events)
  }

  /** Result `k` is the first error. */
  ghost predicate FirstError(results: seq<Result<CalendarEvent, Error>>, k: int) {
    && 0 <= k < |results|
    && results[k].Err?
    && forall j :: 0 <= j < k ==> results[j].Ok?
  }

  /** When the first result is a value, the first error of the rest is the first error of all. */
  lemma ErrorAfterHead(results: seq<Result<CalendarEvent, Error>>, e: Error)
    requires |results| > 0 && results[0].Ok?
    requires exists k :: FirstError(results[1..], k) && results[1..][k] == Err(e)
    ensures exists k :: FirstError(results, k) && results[k] == Err(e)
  {
    var k :| FirstError(results[1..], k) && results[1..][k] == Err(e);
    assert FirstError(results, k + 1);
  }

  /** Results that are all values unwrap to exactly those values. */
  lemma UnwrapValues(results: seq<Result<CalendarEvent, Error>>, events: seq<CalendarEvent>)
    requires |results| == |events| && forall k :: 0 <= k < |events| ==> results[k] == Ok(events[k])
    ensures Unwrapped(results) == Ok(events)
  {
    var r := Unwrapped(results);
    assert r.Ok?;
    assert forall k :: 0 <= k < |events| ==> r.value[k] == events[k];
  }

  /** What `get_events` does: return a result, or panic in `unwrap` with a parse error. */
  datatype Outcome = Returned(result: Result<seq<CalendarEvent>, Error>) | Panicked(error: Error)

  /**
   * `get_events` after `osascript` has run: on failure the standard error is returned as
   * an `ExecutionError`; on success the records of the standard output are parsed.
   */
  function GetEvents(succeeded: bool, stdout: string, stderr: string): (r: Outcome)
    ensures !succeeded <==> r == Returned(Err(ExecutionError(stderr)))
    ensures r.Returned? && r.result.Err? ==> r.result.error.ExecutionError?
    ensures r.Panicked? ==> succeeded && r.error.ParseError?
    ensures succeeded && r.Returned? ==> r.result.Ok? && |r.result.value| == |SplitRecords(stdout)|
    ensures var records := SplitRecords(stdout);
      succeeded ==> (r.Returned? <==> forall k :: 0 <= k < |records| ==> ParseEvent(records[k]).Ok?)
    ensures var records := SplitRecords(stdout);
      succeeded && r.Returned? ==> forall k :: 0 <= k < |records| ==> ParseEvent(records[k]) == Ok(r.result.value[k])
    ensures var records := SplitRecords(stdout);
      r.Panicked? ==> exists k :: FirstError(Parsed(records), k) && ParseEvent(records[k]) == Err(r.error)
  {
    if succeeded then
      match Unwrapped(Parsed(SplitRecords(stdout)))
      case Ok(events) => Returned(Ok(events))
      case Err(e) => Panicked(e)
    else Returned(Err(ExecutionError(stderr)))
  }

  // ----- Writing the output, as the script does -----

  /**
   * Fields whose record the script can write so that `get_events` reads them back: the id
   * and title are plain fields; the date text (`start date as string`) holds no `|||`; no
   * field holds `###`; the record does not start with whitespace, and its last character,
   * that of the date text, is neither whitespace nor `#`.
   */
  predicate WritableFields(id: string, title: string, dateText: string) {
    && PlainField(id) && PlainField(title) && !Contains(dateText, PartsSeparator)
    && !Contains(id, EventSeparator) && !Contains(title, EventSeparator) && !Contains(dateText, EventSeparator)
    && (id == [] || !IsWhitespace(id[0]))
    && dateText != [] && !IsWhitespace(dateText[|dateText| - 1]) && dateText[|dateText| - 1] != '#'
  }

  /** An event that can be written, with `dateText` as the text of its start. */
  predicate Writable(e: CalendarEvent, dateText: string) {
    WritableFields(e.id, e.title, dateText)
  }

  /** Neither separator holds a character of the other. */
  lemma SeparatorsApart()
    ensures AvoidsChars(PartsSeparator, EventSeparator) && AvoidsChars(EventSeparator, PartsSeparator)
  {
  }

  /** A record starts with its id (or with `|` when the id is empty) and ends with its date text. */
  lemma RecordTextEnds(id: string, title: string, dateText: string)
    requires dateText != []
    ensures var t := RecordText(id, title, dateText);
      && t[0] == (if id == [] then '|' else id[0])
      && t[|t| - 1] == dateText[|dateText| - 1]
  {
    var tail := title + PartsSeparator + dateText;
    assert tail[|tail| - 1] == dateText[|dateText| - 1];
  }

  /** The records of `events`, with `dateTexts` as the text of their starts, in order. */
  function EventRecords(events: seq<CalendarEvent>, dateTexts: seq<string>): (r: seq<string>)
    requires |dateTexts| == |events|
    ensures |r| == |events|
    ensures forall k :: 0 <= k < |events| ==> r[k] == RecordText(events[k].id, events[k].title, dateTexts[k])
  {
    if events == [] then []
    else [RecordText(events[0].id, events[0].title, dateTexts[0])] + EventRecords(events[1..], dateTexts[1..])
  }

  /** What the script returns: the records with `###` between them, or nothing when there are none. */
  function ScriptOutput(events: seq<CalendarEvent>, dateTexts: seq<string>): (output: string)
    requires |dateTexts| == |events|
    ensures output == [] <==> events == []
    ensures |events| == 1 ==> output == RecordText(events[0].id, events[0].title, dateTexts[0])
  {
    if events == [] then "" else Join(EventRecords(events, dateTexts), EventSeparator)
  }

  /** Each piece of a written date avoids `c`. */
  predicate Lacks(s: string, c: char) {
    forall k :: 0 <= k < |s| ==> s[k] != c
  }

  lemma LacksConcat(a: string, b: string, c: char)
    requires Lacks(a, c) && Lacks(b, c)
    ensures Lacks(a + b, c)
  {
  }

  /** A date written as the parser expects holds neither `|` nor `#`. */
  lemma DateTextLacks(dt: DateTime, w: char, c: char)
    requires FitsPattern(dt) && IsWeekday(w) && (c == '|' || c == '#')
    ensures Lacks(FormatJapaneseDate(dt, w), c)
  {
    var f := FieldsOf(dt);
    var k := f.clock;
    LacksConcat(k.second, [], c);
    LacksConcat(":", k.second + [], c);
    LacksConcat(k.minute, ":" + (k.second + []), c);
    LacksConcat(":", k.minute + (":" + (k.second + [])), c);
    LacksConcat(k.hour, ":" + (k.minute + (":" + (k.second + []))), c);
    LacksConcat([' ', w, '曜', '日', ' '], ClockThen(k, []), c);
    LacksConcat("日", WeekdayThen(w, k, []), c);
    LacksConcat(f.day, "日" + WeekdayThen(w, k, []), c);
    LacksConcat("月", DayThen(f.day, w, k, []), c);
    LacksConcat(f.month, "月" + DayThen(f.day, w, k, []), c);
    LacksConcat("年", MonthThen(f.month, f.day, w, k, []), c);
    LacksConcat(f.year, "年" + MonthThen(f.month, f.day, w, k, []), c);
  }

  /** A written date ends with the last digit of the seconds. */
  lemma DateTextEnd(dt: DateTime, w: char)
    requires FitsPattern(dt) && IsWeekday(w)
    ensures var t := FormatJapaneseDate(dt, w); t != [] && IsDigit(t[|t| - 1])
  {
    var f := FieldsOf(dt);
    var t := FormatJapaneseDate(dt, w);
    assert ClockThen(f.clock, [])[7] == f.clock.second[1];
    assert t == f.year + ("年" + MonthThen(f.month, f.day, w, f.clock, []));
    assert EndsWith(t, ClockThen(f.clock, []));
  }

  /**
   * An event with a plain id and title that hold no `###`, the id not starting with
   * whitespace, and a valid start written as the parser expects, is writable.
   */
  lemma FormattedWritable(e: CalendarEvent, w: char)
    requires PlainField(e.id) && PlainField(e.title)
    requires !Contains(e.id, EventSeparator) && !Contains(e.title, EventSeparator)
    requires e.id == [] || !IsWhitespace(e.id[0])
    requires FitsPattern(e.startTime) && IsValidDateTime(e.startTime) && IsWeekday(w)
    ensures Writable(e, FormatJapaneseDate(e.startTime, w))
    ensures ParseJapaneseDate(FormatJapaneseDate(e.startTime, w)) == Ok(e.startTime)
  {
    DateTextPlain(e.startTime, w);
    ParseFormatted(e.startTime, w);
  }

  /** A date in the parsed format holds neither separator and ends with a digit. */
  lemma DateTextPlain(dt: DateTime, w: char)
    requires FitsPattern(dt) && IsWeekday(w)
    ensures var d := FormatJapaneseDate(dt, w);
      && !Contains(d, PartsSeparator) && !Contains(d, EventSeparator)
      && d != [] && !IsWhitespace(d[|d| - 1]) && d[|d| - 1] != '#'
  {
    var d := FormatJapaneseDate(dt, w);
    DateTextLacks(dt, w, '|');
    DateTextLacks(dt, w, '#');
    assert AvoidsChars(d, PartsSeparator) && AvoidsChars(d, EventSeparator);
    AvoidsNotContains(d, PartsSeparator);
    AvoidsNotContains(d, EventSeparator);
    DateTextEnd(dt, w);
  }

  /** The record of a writable event is read back as the event. */
  lemma ReadEventRecord(e: CalendarEvent, dateText: string)
    requires Writable(e, dateText) && ParseJapaneseDate(dateText) == Ok(e.startTime)
    ensures ParseEvent(RecordText(e.id, e.title, dateText)) == Ok(e)
  {
    ReadRecord(e.id, e.title, dateText);
  }

  /**
   * The record of writable fields holds no `###`, is clear of it (no `###` starts inside
   * it when one follows), and neither starts nor ends with whitespace.
   */
  lemma WritableRecord(id: string, title: string, dateText: string)
    requires WritableFields(id, title, dateText)
    ensures var t := RecordText(id, title, dateText);
      && !Contains(t, EventSeparator) && EndsClear(t, EventSeparator)
      && t != [] && !IsWhitespace(t[0]) && !IsWhitespace(t[|t| - 1])
  {
    var t := RecordText(id, title, dateText);
    SeparatorsApart();
    ContainsAcross(title, PartsSeparator, dateText, EventSeparator);
    ContainsAcross(id, PartsSeparator, title + PartsSeparator + dateText, EventSeparator);
    RecordTextEnds(id, title, dateText);
    UniformClear(t, EventSeparator);
  }

  /** A record as the output can hold it: non-empty, clear of `###`, with no whitespace at its ends. */
  predicate CleanRecord(t: string) {
    t != [] && EndsClear(t, EventSeparator) && !IsWhitespace(t[0]) && !IsWhitespace(t[|t| - 1])
  }

  /** The records of writable events are clean. */
  lemma RecordsClean(events: seq<CalendarEvent>, dateTexts: seq<string>)
    requires |dateTexts| == |events|
    requires forall k :: 0 <= k < |events| ==> Writable(events[k], dateTexts[k])
    ensures forall k :: 0 <= k < |events| ==> CleanRecord(EventRecords(events, dateTexts)[k])
  {
    var records := EventRecords(events, dateTexts);
    forall k | 0 <= k < |records|
      ensures CleanRecord(records[k])
    {
      WritableRecord(events[k].id, events[k].title, dateTexts[k]);
    }
  }

  /** Clean records joined by `###`, with a trailing line break, split back into the records. */
  lemma SplitJoinedRecords(records: seq<string>)
    requires |records| >= 1 && forall k :: 0 <= k < |records| ==> CleanRecord(records[k])
    ensures SplitRecords(Join(records, EventSeparator) + "\n") == records
  {
    assert forall k :: 0 <= k < |records| ==> EndsClear(records[k], EventSeparator) && records[k] != [];
    JoinEndChars(records, EventSeparator);
    TrimNewline(Join(records, EventSeparator));
    SplitJoinClear(records, EventSeparator);
    NonEmptyPiecesKeep(records);
  }

  /** Records joined by `###`, then `###` and a line break, trim to the join and the `###` when the first starts with a non-space. */
  lemma TrimTrailing(records: seq<string>)
    requires |records| >= 1 && records[0] != [] && !IsWhitespace(records[0][0]) && records[|records| - 1] != []
    ensures Trim(Join(records, EventSeparator) + EventSeparator + "\n") == Join(records, EventSeparator) + EventSeparator
  {
    var text := Join(records, EventSeparator) + EventSeparator;
    JoinEndChars(records, EventSeparator);
    assert text[0] == Join(records, EventSeparator)[0] && text[|text| - 1] == '#';
    TrimNewline(text);
  }

  /** The filter drops the empty piece after non-empty ones. */
  lemma DropTrailingEmpty(records: seq<string>)
    requires forall k :: 0 <= k < |records| ==> records[k] != []
    ensures NonEmptyPieces(records + [""]) == records
  {
    NonEmptyPiecesConcat(records, [""]);
    NonEmptyPiecesKeep(records);
    assert NonEmptyPieces([""]) == [];
  }

  /**
   * With `###` after the last record as well, the split leaves an empty last piece, which
   * the filter drops: the records are the same.
   */
  lemma SplitTrailingRecords(records: seq<string>)
    requires |records| >= 1 && forall k :: 0 <= k < |records| ==> CleanRecord(records[k])
    ensures SplitRecords(Join(records, EventSeparator) + EventSeparator + "\n") == records
  {
    TrimTrailing(records);
    assert forall k :: 0 <= k < |records| ==> EndsClear(records[k], EventSeparator) && records[k] != [];
    SplitJoinTrailing(records, EventSeparator);
    DropTrailingEmpty(records);
  }

  /** The output the script writes for writable events, with a trailing line break, splits into their records. */
  lemma SplitScriptOutput(events: seq<CalendarEvent>, dateTexts: seq<string>)
    requires |dateTexts| == |events|
    requires forall k :: 0 <= k < |events| ==> Writable(events[k], dateTexts[k])
    ensures SplitRecords(ScriptOutput(events, dateTexts) + "\n") == EventRecords(events, dateTexts)
  {
    if events == [] {
      TrimNewline("");
      assert Split([], EventSeparator) == [[]];
    } else {
      RecordsClean(events, dateTexts);
      SplitJoinedRecords(EventRecords(events, dateTexts));
    }
  }

  /** A lone `###` and a line break hold no record. */
  lemma LoneSeparator()
    ensures SplitRecords(EventSeparator + "\n") == []
  {
    var text := EventSeparator;
    TrimNewline(text);
    assert text == Join(["", ""], EventSeparator);
    SplitJoinClear(["", ""], EventSeparator);
    assert NonEmptyPieces(["", ""]) == [];
  }

  /** With `###` after the last record as well, the records are the same. */
  lemma SplitTrailingOutput(events: seq<CalendarEvent>, dateTexts: seq<string>)
    requires |dateTexts| == |events|
    requires forall k :: 0 <= k < |events| ==> Writable(events[k], dateTexts[k])
    ensures SplitRecords(ScriptOutput(events, dateTexts) + EventSeparator + "\n") == EventRecords(events, dateTexts)
  {
    if events == [] {
      assert ScriptOutput(events, dateTexts) + EventSeparator + "\n" == EventSeparator + "\n";
      LoneSeparator();
    } else {
      RecordsClean(events, dateTexts);
      SplitTrailingRecords(EventRecords(events, dateTexts));
    }
  }

  /** The records of writable events whose date texts parse to their starts are read back as the events. */
  lemma ParseEventRecords(events: seq<CalendarEvent>, dateTexts: seq<string>)
    requires |dateTexts| == |events|
    requires forall k :: 0 <= k < |events| ==> Writable(events[k], dateTexts[k])
    requires forall k :: 0 <= k < |events| ==> ParseJapaneseDate(dateTexts[k]) == Ok(events[k].startTime)
    ensures Unwrapped(Parsed(EventRecords(events, dateTexts))) == Ok(events)
  {
    var records := EventRecords(events, dateTexts);
    forall k | 0 <= k < |records|
      ensures ParseEvent(records[k]) == Ok(events[k])
    {
      ReadEventRecord(events[k], dateTexts[k]);
    }
    UnwrapValues(Parsed(records), events);
  }

  /**
   * Round trip: the output the script writes for writable events whose date texts parse
   * to their starts, with the line break `osascript` adds, is read back as exactly those
   * events, in order; so it is with `###` after the last record.
   */
  lemma ReadScriptOutput(events: seq<CalendarEvent>, dateTexts: seq<string>, stderr: string)
    requires |dateTexts| == |events|
    requires forall k :: 0 <= k < |events| ==> Writable(events[k], dateTexts[k])
    requires forall k :: 0 <= k < |events| ==> ParseJapaneseDate(dateTexts[k]) == Ok(events[k].startTime)
    ensures GetEvents(true, ScriptOutput(events, dateTexts) + "\n", stderr) == Returned(Ok(events))
    ensures GetEvents(true, ScriptOutput(events, dateTexts) + EventSeparator + "\n", stderr) == Returned(Ok(events))
  {
    SplitScriptOutput(events, dateTexts);
    SplitTrailingOutput(events, dateTexts);
    ParseEventRecords(events, dateTexts);
  }

  /**
   * A bad record among writable ones: when every record before it parses and its date
   * text does not, `get_events` panics with that record's date error, whatever follows,
   * and so returns none of the events; so it is with `###` after the last record.
   */
  lemma BadRecordPanics(events: seq<CalendarEvent>, dateTexts: seq<string>, i: nat, stderr: string)
    requires |dateTexts| == |events| && i < |events|
    requires forall k :: 0 <= k < |events| ==> Writable(events[k], dateTexts[k])
    requires forall k :: 0 <= k < i ==> ParseJapaneseDate(dateTexts[k]).Ok?
    requires ParseJapaneseDate(dateTexts[i]).Err?
    ensures GetEvents(true, ScriptOutput(events, dateTexts) + "\n", stderr)
      == Panicked(ParseError(BadDate(ParseJapaneseDate(dateTexts[i]).error)))
    ensures GetEvents(true, ScriptOutput(events, dateTexts) + EventSeparator + "\n", stderr)
      == Panicked(ParseError(BadDate(ParseJapaneseDate(dateTexts[i]).error)))
  {
    SplitScriptOutput(events, dateTexts);
    SplitTrailingOutput(events, dateTexts);
    var results := Parsed(EventRecords(events, dateTexts));
    forall k | 0 <= k < i
      ensures results[k].Ok?
    {
      ReadRecord(events[k].id, events[k].title, dateTexts[k]);
    }
    ReadRecord(events[i].id, events[i].title, dateTexts[i]);
    assert FirstError(results, i);
    FirstErrorUnwrapped(results, i);
  }

  /** `unwrap` panics on the first error and on no other. */
  lemma FirstErrorUnwrapped(results: seq<Result<CalendarEvent, Error>>, i: nat)
    requires FirstError(results, i)
    ensures Unwrapped(results) == Err(results[i].error)
  {
    var e := Unwrapped(results).error;
    var k :| FirstError(results, k) && results[k] == Err(e);
    assert k == i;
  }

  /** A single record whose date is not a date, without a line break after it, makes `get_events` panic with that record's error. */
  lemma LoneBadRecordPanics(id: string, title: string, dateText: string, stderr: string)
    requires WritableFields(id, title, dateText)
    requires ParseJapaneseDate(dateText).Err?
    ensures GetEvents(true, RecordText(id, title, dateText), stderr) == Panicked(ParseError(BadDate(ParseJapaneseDate(dateText).error)))
  {
    var record := RecordText(id, title, dateText);
    ReadRecord(id, title, dateText);
    WritableRecord(id, title, dateText);
    TrimUnchanged(record);
    SplitWhole(record, EventSeparator);
    assert NonEmptyPieces([record]) == [record];
    assert Parsed([record]) == [ParseEvent(record)];
  }
}
