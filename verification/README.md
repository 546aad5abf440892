# calendar-notice core, in Dafny

calendar-notice syncs a Google Calendar (and reads an Apple Calendar through
AppleScript) into a local store and raises desktop alerts shortly before events
start. This project models the pure decisions at its centre and proves what they
promise:

- **Token expiry** (`is_token_expired`): a stored OAuth token counts as expired
  60 seconds before its lifetime runs out. A missing lifetime is parsed as `"0"`.
  Timestamps are whole seconds since the Unix epoch (`models.dfy`,
  `token_expiry.dfy`, with Rust's `str::parse::<i64>` in `decimal.dfy`).
- **Due events** (`filter_by_start_time`, `filter_upcoming_events`): an event is
  due when its notification is enabled and it starts less than the lead time
  after `now`. The filter keeps the due events in input order and drops the
  notification halves (`upcoming_events.dfy`).
- **Meeting links** (`extract_zoom_link`, `extract_teams_link`): hand-written
  matchers behave as the leftmost-first, greedy regex search does. The Zoom
  link is rewritten to `https://zoom.us/j/<id>[?pwd=<password>]`. The Teams
  link is returned as written (`zoom_link.dfy`, `teams_link.dfy`).
- **Apple Calendar output** (`get_events` after `osascript`, `parse_event`,
  `parse_japanese_date`):
  - the output is trimmed, split on `###` and cleared of empty pieces;
  - each record must split on `|||` into exactly three parts;
  - the start date is found by the Japanese-locale pattern
    `YYYY年M月D日 X曜日 HH:MM:SS`, then range-checked as the `time` crate does
    (`japanese_date.dfy`, `apple_calendar.dfy`).
  - `strings.dfy` holds the `str::split`, `str::trim` and join operations
    these use.
  - The process result (success flag, standard output, standard error) is a
    parameter.
  - A record that does not parse makes `unwrap` panic. The model makes this
    explicit as the `Panicked` outcome.

The main results:
- written output is read back as exactly the events written: `ReadScriptOutput`
  for whole outputs, `ParseFormatted` for dates;
- a record whose id, title or date text holds `|||` is rejected (`SeparatorInField`);
- 29 February is accepted exactly in leap years (`February29`);
- the weekday is never checked against the date (`WeekdayIgnored`);
- each extractor returns its leftmost match and is idempotent;
- the expiry and due-ness boundaries are those the unit tests fix.

Two behaviours of the code deserve a note:
- **Missing lifetime.** A token without `expires_in` is read as `"0"`, so it
  counts as expired once `now` is past `updated_at - 60`
  (`MissingLifetimeIsZero`).
- **Malformed records.** `get_events` unwraps each record's result in order,
  so the first record that does not parse makes it panic with that record's
  error. It then returns none of the batch, whatever records surround the bad
  one (`BadRecordPanics`, `GetEvents`).

The round trip covers the events the script can write unambiguously
(`WritableFields`):
- no field holds `|||` or `###`;
- the id and title do not end with `|`;
- the id does not start with whitespace;
- the date text does not end with whitespace or `#`.

Lone `|`, `#` and whitespace are allowed everywhere else, so a title such as
`C# study` or `a|b` is covered. The conditions are sufficient for the round
trip, and each of them is needed at some position, though not at every one:
- a title or id ending in `|` runs into the following `|||`, so the cut moves
  into that field;
- `trim` removes whitespace only at the ends of the whole output, so an id
  starting with whitespace loses it only in the first record, and a date text
  ending in whitespace loses it only in the last record;
- a date text ending in `#` runs into the following `###` only when another
  record follows it.

`SeparatorInField` and `BadRecordPanics` state what happens to some events
outside the conditions.

## Model

| member | source | states |
|---|---|---|
| Decimal.ParseI64 | src/oauth/is_token_expired.rs:13-18 | `str::parse::<i64>`: a parsed value lies in the i64 range and comes from non-empty text |
| Decimal.ParseShowNat | src/oauth/is_token_expired.rs:17 | a non-negative lifetime written in decimal parses back to itself |
| Decimal.ParseNegative | src/oauth/is_token_expired.rs:17 | a negative value written with a leading `-` parses back to itself |
| Decimal.ParseRejects | src/oauth/is_token_expired.rs:17-18 | the empty string, a lone sign, and unsigned text holding a non-digit are rejected; `expect` then panics |
| Decimal.DigitsValue | src/calendar/mod.rs:116-121 | a capture of k ASCII digits denotes a number below 10^k, so every `parse` of a capture into `i32` or `u8` succeeds |
| TokenExpiry.LifetimeSeconds | src/oauth/is_token_expired.rs:13-18 | the stored `expires_in` read as an i64 (so within the i64 range); a token without one has lifetime 0 |
| TokenExpiry.StoredLifetime | src/oauth/is_token_expired.rs:19-22 | with a stored decimal lifetime, the token is expired iff `updated_at + expires_in - 60 < now` |
| TokenExpiry.ExpiryBoundary | src/oauth/is_token_expired.rs:19-22 | at `updated_at + expires_in - 60` the token is fresh; one second later it is expired (strict comparison) |
| TokenExpiry.ExpiredStaysExpired | src/oauth/is_token_expired.rs:19-22 | expired at `now` implies expired at every later instant |
| TokenExpiry.LongerLifetimeStaysFresh | src/oauth/is_token_expired.rs:19-22 | raising the lifetime never turns a fresh token into an expired one |
| TokenExpiry.MissingLifetimeIsZero | src/oauth/is_token_expired.rs:13-18 | a missing lifetime behaves exactly like `"0"`: expired iff `updated_at - 60 < now` |
| TokenExpiry.OnlyTimingFieldsMatter | src/oauth/is_token_expired.rs:10-23 | tokens agreeing on `updated_at` and `expires_in` agree on expiry; the other fields are ignored |
| TokenExpiry.UnitTestIsTokenExpired | src/oauth/is_token_expired.rs:32-43 | a 3600 s token is fresh at 00:59:00 and expired at 01:59:01 |
| TokenExpiry.HasParsableLifetime | src/oauth/is_token_expired.rs:13-18 | a missing lifetime is always parsable, as it is read as `"0"`; a parsable stored lifetime is not empty |
| TokenExpiry.ExpiredWithMarginAt | src/oauth/is_token_expired.rs:19-20 | the margin-adjusted expiry lies strictly before the real one; without a lifetime it is `updated_at - 60` |
| TokenExpiry.IsTokenExpired | src/oauth/is_token_expired.rs:10-23 | a token past its real lifetime is expired; at 60 s or more before it the token is fresh |
| UpcomingEvents.FilterUpcomingEvents | src/notification/filter_upcoming_events.rs:4-12 | the output is no longer than the input; every output event belongs to a due pair; every due pair's event is in the output |
| UpcomingEvents.FilterConcat | src/notification/filter_upcoming_events.rs:6-10 | filtering distributes over concatenation, so input order is kept |
| UpcomingEvents.FilterSingle | src/notification/filter_upcoming_events.rs:8-9 | one pair yields its event exactly when it is due, and the notification is dropped |
| UpcomingEvents.DisabledNeverDue | src/notification/filter_upcoming_events.rs:34 | a disabled notification is never due, whatever the start time |
| UpcomingEvents.LeadBoundary | src/notification/filter_upcoming_events.rs:33-34 | an enabled event starting exactly one lead time away is not due; one second sooner it is |
| UpcomingEvents.StartedIsDue | src/notification/filter_upcoming_events.rs:34 | an enabled event that has started is due whenever the lead time is not negative |
| UpcomingEvents.UpcomingGrows | src/notification/filter_upcoming_events.rs:34 | an event due at `now` is still due at any later instant |
| UpcomingEvents.UnitTestFilterByStartTime | src/notification/filter_upcoming_events.rs:46-94 | with lead 600 s, a start at 12:10:00 is not due, 12:09:59 is due, a disabled one is not; the filter keeps only the second |
| UpcomingEvents.IsDue | src/notification/filter_upcoming_events.rs:15-35 | a due event is enabled and starts less than the lead time after `now`; an enabled event that has started is due when the lead time is positive |
| Strings.FindFrom | src/calendar/mod.rs:80 | the leftmost occurrence of the separator at or after a position, and none before it |
| Strings.Split | src/calendar/mod.rs:80 | `str::split` on a string pattern: at least one piece, no piece contains the separator; without an occurrence the text is its only piece, otherwise the first piece is the text before the leftmost occurrence |
| Strings.JoinSplit | src/calendar/mod.rs:80 | joining the pieces of a split with the separator gives back the input |
| Strings.SplitJoin | src/calendar/mod.rs:94 | splitting the join of pieces that avoid the separator's characters gives back the pieces |
| Strings.SplitAvoiding | src/calendar/mod.rs:94 | text without the separator's characters splits into itself alone |
| Strings.SplitConcat | src/calendar/mod.rs:94 | splitting `a + sep + b` peels off `a` when `sep` cannot start inside `a` |
| Strings.SplitConcatClear | src/calendar/mod.rs:80 | splitting `a + sep + b` peels off `a` when no occurrence starts inside `a`, even with `sep` after it |
| Strings.SplitWhole | src/calendar/mod.rs:94 | text without the separator is its own single piece |
| Strings.UniformClear | src/calendar/mod.rs:94 | for a separator repeating one character (`\|\|\|`, `###`), text without it whose last character is not that character is clear of it |
| Strings.SplitJoinClear | src/calendar/mod.rs:80 | splitting the join of pieces that are each clear of the separator gives back the pieces |
| Strings.SplitJoinTrailing | src/calendar/mod.rs:80-81 | with the separator after the join as well, the split is the pieces and one empty piece |
| Strings.ContainsAcross | src/calendar/mod.rs:54-56 | an occurrence in `a + x + b`, where `x` shares no character with the separator, lies inside `a` or inside `b` |
| Strings.SplitCountsOccurrences | src/calendar/mod.rs:94 | k non-overlapping occurrences of the separator give more than k pieces |
| Strings.JoinEnds | src/calendar/mod.rs:54-58 | a join begins with its first piece and ends with its last |
| Strings.JoinEndChars | src/calendar/mod.rs:54-58 | a join's first and last characters are those of its first and last pieces |
| Strings.TrimStart | src/calendar/mod.rs:79 | drops exactly the leading whitespace: what is dropped is whitespace and what remains does not start with it |
| Strings.TrimEnd | src/calendar/mod.rs:79 | drops exactly the trailing whitespace |
| Strings.TrimUnchanged | src/calendar/mod.rs:79 | text that neither starts nor ends with whitespace is its own trim |
| Strings.Trim | src/calendar/mod.rs:79 | the result is no longer than the input, neither starts nor ends with whitespace, and is empty exactly for blank text |
| Strings.TrimNewline | src/calendar/mod.rs:76-79 | such text followed by a line break trims back to itself |
| Strings.Span | src/google_calendar/extract_teams_link.rs:28 | a greedy `+`/`*` run: every character in it belongs to the class and the next one does not |
| Strings.SpanExact | src/google_calendar/extract_teams_link.rs:28 | a class run followed by the end or a non-class character is the span |
| Strings.SpanOver | src/google_calendar/extract_zoom_link.rs:35 | the span of a class run followed by text that does not continue it is the run |
| ZoomLink.PathLength | src/google_calendar/extract_zoom_link.rs:35 | `(?:j\|w\|wc)/`: 2 for `j/` or `w/`, 3 for `wc/`, otherwise no match |
| ZoomLink.PasswordHere | src/google_calendar/extract_zoom_link.rs:35 | `?pwd=` matches iff followed by a `[a-zA-Z0-9.]` character; the capture is a password |
| ZoomLink.IdAndPasswordHere | src/google_calendar/extract_zoom_link.rs:35 | `(\d+)` and the optional password group match iff a digit comes first; the result is well formed |
| ZoomLink.MatchFromDomain | src/google_calendar/extract_zoom_link.rs:35 | matches from `zoom.us/` exactly when the domain-and-path part of the pattern does |
| ZoomLink.LabelBranch | src/google_calendar/extract_zoom_link.rs:35 | the optional `[\w-]+\.` label branch matches exactly when a label and the domain follow |
| ZoomLink.MatchHere | src/google_calendar/extract_zoom_link.rs:35 | the matcher succeeds at a position exactly when the pattern matches there |
| ZoomLink.FindFrom | src/google_calendar/extract_zoom_link.rs:37 | the leftmost match position at or after a position, with no match before it |
| ZoomLink.Canonical | src/google_calendar/extract_zoom_link.rs:41-44 | starts with `https://zoom.us/j/` followed by the id, and ends there exactly when there is no password |
| ZoomLink.CanonicalShape | src/google_calendar/extract_zoom_link.rs:41-44 | a formatted link is `https://zoom.us/j/`, one or more digits, then nothing or `?pwd=` and a password |
| ZoomLink.CanonicalTailShape | src/google_calendar/extract_zoom_link.rs:42-43 | the part after the id is empty or `?pwd=` and a password, and does not start with a digit |
| ZoomLink.ExtractZoomLink | src/google_calendar/extract_zoom_link.rs:33-46 | None iff the pattern matches nowhere; any result has the canonical shape |
| ZoomLink.ReadPresentPassword | src/google_calendar/extract_zoom_link.rs:35-39 | a password is captured whole when a non-password character or the end follows |
| ZoomLink.ReadPassword | src/google_calendar/extract_zoom_link.rs:35-39 | the optional password group reads back the password a URL was written with, or none |
| ZoomLink.NoDigitAfterId | src/google_calendar/extract_zoom_link.rs:35-38 | after the id comes no digit, so `\d+` takes the whole id |
| ZoomLink.ReadIdAndPassword | src/google_calendar/extract_zoom_link.rs:35-39 | the id is the maximal digit run, and the password is read with it |
| ZoomLink.ReadPath | src/google_calendar/extract_zoom_link.rs:35 | each of `j/`, `w/`, `wc/` is read whole |
| ZoomLink.ReadFromDomain | src/google_calendar/extract_zoom_link.rs:35 | from the domain on, a URL reads back its id and password |
| ZoomLink.ReadLabel | src/google_calendar/extract_zoom_link.rs:35 | a one-label subdomain is skipped and the rest read back |
| ZoomLink.NoLabelBeforeDomain | src/google_calendar/extract_zoom_link.rs:35 | without a label, the label branch fails and the plain domain is used |
| ZoomLink.ReadHere | src/google_calendar/extract_zoom_link.rs:35 | a URL of any accepted shape is matched with exactly its id and password |
| ZoomLink.IdAndPasswordSound | src/google_calendar/extract_zoom_link.rs:35 | what the id-and-password reader took is the id, then the password part, then text that does not extend the match |
| ZoomLink.DomainSound | src/google_calendar/extract_zoom_link.rs:35 | what the reader from `zoom.us/` on took is the domain, one of the three paths, the id and the password part |
| ZoomLink.LabelledSound | src/google_calendar/extract_zoom_link.rs:35 | what the host-label branch took is a label of `[\w-]` characters, a dot and a URL's domain part |
| ZoomLink.MatchSound | src/google_calendar/extract_zoom_link.rs:35 | soundness, the converse of `ReadHere`: any match is a well-formed URL written there, followed by text that does not extend it, and the captures are its id and password |
| ZoomLink.ExtractSound | src/google_calendar/extract_zoom_link.rs:33-46 | a link that is returned is the canonical form of a well-formed URL written somewhere in the description |
| ZoomLink.ExtractNormalises | src/google_calendar/extract_zoom_link.rs:35-44 | after text without an `h`, any accepted URL (subdomain, `/w/`, `/wc/`) comes back as `https://zoom.us/j/<id>` with its password |
| ZoomLink.NoMatchAtNonH | src/google_calendar/extract_zoom_link.rs:35 | a match starts with the `h` of `https://` |
| ZoomLink.ExtractAt | src/google_calendar/extract_zoom_link.rs:37-44 | the leftmost match decides the result, whatever follows |
| ZoomLink.CanonicalIsFixpoint | src/google_calendar/extract_zoom_link.rs:41-44 | a canonical link is returned unchanged |
| ZoomLink.ExtractIdempotent | src/google_calendar/extract_zoom_link.rs:37-44 | extracting from a result gives the result again |
| ZoomLink.NoSchemeNoLink | src/google_calendar/extract_zoom_link.rs:24-25 | text without an `h` yields None |
| ZoomLink.SpellCanonical | src/google_calendar/extract_zoom_link.rs:42-43 | a plain `zoom.us/j/` URL is already written canonically |
| ZoomLink.ExampleMeetingCanonical | src/google_calendar/extract_zoom_link.rs:18-22 | the documented meeting with password is well formed and formats to its own link |
| ZoomLink.ExampleMeetingUnchanged | src/google_calendar/extract_zoom_link.rs:18-22 | the documented link with password is returned unchanged |
| ZoomLink.ExampleNoLink | src/google_calendar/extract_zoom_link.rs:24-25 | the documented text without a link yields None |
| ZoomLink.ExampleWebinarValid | src/google_calendar/extract_zoom_link.rs:27-31 | the documented webinar URL is one the pattern accepts |
| ZoomLink.ExampleWebinarSpelled | src/google_calendar/extract_zoom_link.rs:27-31 | it is written `https://us02.zoom.us/w/98765432100` and formats to `https://zoom.us/j/98765432100` |
| ZoomLink.ExampleWebinarNormalised | src/google_calendar/extract_zoom_link.rs:27-31 | the documented webinar link comes back as `https://zoom.us/j/98765432100` |
| TeamsLink.PrefixHasNoWhitespace | src/google_calendar/extract_teams_link.rs:28 | the literal prefix holds no whitespace |
| TeamsLink.TeamsLinkHasNoWhitespace | src/google_calendar/extract_teams_link.rs:28 | a Teams link holds no whitespace at all |
| TeamsLink.MatchLength | src/google_calendar/extract_teams_link.rs:28 | a match starts at a position iff the prefix and a non-whitespace character are there; its length covers the maximal non-whitespace run |
| TeamsLink.FirstLinkFrom | src/google_calendar/extract_teams_link.rs:29 | the leftmost match position at or after a position, with none before it |
| TeamsLink.ExtractTeamsLink | src/google_calendar/extract_teams_link.rs:27-30 | None iff no match anywhere; a result is a Teams link, the leftmost match, a contiguous substring followed by whitespace or the end |
| TeamsLink.FirstLinkFound | src/google_calendar/extract_teams_link.rs:29 | the text at the leftmost match, up to the run's end, is the found link |
| TeamsLink.LinkShape | src/google_calendar/extract_teams_link.rs:28 | a matched stretch is a Teams link followed by whitespace or the end |
| TeamsLink.ReadHere | src/google_calendar/extract_teams_link.rs:28 | a link followed by whitespace or the end is matched to its full length |
| TeamsLink.NoLinkAtNonH | src/google_calendar/extract_teams_link.rs:28 | a match starts with the `h` of `https://` |
| TeamsLink.ExtractFinds | src/google_calendar/extract_teams_link.rs:28-29 | after text without an `h`, a link followed by whitespace or the end is returned exactly |
| TeamsLink.ExtractIdempotent | src/google_calendar/extract_teams_link.rs:29 | extracting from a result gives the result again |
| TeamsLink.NoSchemeNoLink | src/google_calendar/extract_teams_link.rs:24-25 | text without an `h` yields None |
| TeamsLink.ExampleLinkShape | src/google_calendar/extract_teams_link.rs:18-22 | the documented link is a Teams link |
| TeamsLink.ExampleMeetingLink | src/google_calendar/extract_teams_link.rs:18-22 | the documented description yields its link as written |
| TeamsLink.ExampleNoLink | src/google_calendar/extract_teams_link.rs:24-25 | the documented text without a link yields None |
| JapaneseDate.DaysInMonth | src/calendar/mod.rs:124 | between 28 and 31 days; 29 exactly for February of a Gregorian leap year |
| JapaneseDate.IsLeapYear | src/calendar/mod.rs:124 | the Gregorian rule: divisible by 4, except centuries not divisible by 400 |
| JapaneseDate.InRange | src/calendar/mod.rs:124-125 | an in-range month is 1 to 12; an in-range day is at least 1, and at most 31 when the month is valid; days 1 to 28 are always in range |
| JapaneseDate.CheckDateTime | src/calendar/mod.rs:124-125 | Ok iff every component is in range, and then unchanged; otherwise the first out-of-range component in the order month, year, day, hour, minute, second |
| JapaneseDate.ClockHere | src/calendar/mod.rs:112 | `(\d{2}):(\d{2}):(\d{2})` captures three two-digit numbers |
| JapaneseDate.WeekdayHere | src/calendar/mod.rs:112 | ` X曜日 ` reads one of the seven weekday kanji, then the clock |
| JapaneseDate.ShortNumberLength | src/calendar/mod.rs:112 | `(\d{1,2})` and then a non-digit marker: one or two digits, followed by the marker |
| JapaneseDate.DayHere | src/calendar/mod.rs:112 | `(\d{1,2})日` captures one or two digits, then the weekday and clock |
| JapaneseDate.MonthHere | src/calendar/mod.rs:112 | `(\d{1,2})月` captures one or two digits, then the day |
| JapaneseDate.MatchHere | src/calendar/mod.rs:112 | the whole pattern; what it reads has the widths the pattern allows and a weekday kanji |
| JapaneseDate.ClockSound | src/calendar/mod.rs:112 | the clock read is exactly the text there |
| JapaneseDate.WeekdaySound | src/calendar/mod.rs:112 | the weekday part read is exactly the text there |
| JapaneseDate.DaySound | src/calendar/mod.rs:112 | the day part read is exactly the text there |
| JapaneseDate.MonthSound | src/calendar/mod.rs:112 | the month part read is exactly the text there |
| JapaneseDate.MatchSound | src/calendar/mod.rs:112-121 | the text is exactly the date spelled from the captures read from it |
| JapaneseDate.ReadClock | src/calendar/mod.rs:112 | a written clock is read back |
| JapaneseDate.ReadWeekday | src/calendar/mod.rs:112 | a written weekday part is read back |
| JapaneseDate.ReadShortNumber | src/calendar/mod.rs:112 | a written one- or two-digit number and its marker are read back |
| JapaneseDate.ReadDay | src/calendar/mod.rs:112 | a written day part is read back |
| JapaneseDate.ReadMonth | src/calendar/mod.rs:112 | a written month part is read back |
| JapaneseDate.ReadDate | src/calendar/mod.rs:112-121 | a written date is read back with exactly its captures, weekday and following text |
| JapaneseDate.MatchHereExactly | src/calendar/mod.rs:112 | the matcher succeeds exactly where the pattern matches |
| JapaneseDate.DateStartsExactly | src/calendar/mod.rs:115 | the same, at a position of a longer text |
| JapaneseDate.FirstDateFrom | src/calendar/mod.rs:115 | the leftmost match position at or after a position, with none before it |
| JapaneseDate.FirstDateIs | src/calendar/mod.rs:115 | a match with none before it is the one found |
| JapaneseDate.LeftmostFound | src/calendar/mod.rs:115-121 | the captures found are those of the leftmost match |
| JapaneseDate.ValuesOf | src/calendar/mod.rs:116-121 | the captured numbers: the year is below 10000 and the others below 100, so each `parse` into `i32` or `u8` succeeds |
| JapaneseDate.ParseJapaneseDate | src/calendar/mod.rs:110-131 | a parsed date and time is valid and its year has four digits |
| JapaneseDate.ParseJapaneseDateSpec | src/calendar/mod.rs:110-131 | `FormatInvalid` iff the pattern matches nowhere; otherwise the range check of the numbers the leftmost match captured |
| JapaneseDate.FieldsOf | src/calendar/mod.rs:116-121 | the captures a date is written with have the pattern's widths and parse back to the date |
| JapaneseDate.FieldsValues | src/calendar/mod.rs:116-121 | each written field parses back to its number |
| JapaneseDate.ShowNatShort | src/calendar/mod.rs:112 | a number below 100 is written with at most two digits |
| JapaneseDate.DigitAtDate | src/calendar/mod.rs:112 | a match starts with a digit of the year |
| JapaneseDate.ReadDateAfter | src/calendar/mod.rs:115-125 | after digit-free text, a written date is read with its captures and checked |
| JapaneseDate.ReadWrittenDate | src/calendar/mod.rs:115-127 | after digit-free text and whatever follows, a written date parses to the range check of that date |
| JapaneseDate.ParseWritten | src/calendar/mod.rs:116-127 | a written date alone parses to the range check of that date |
| JapaneseDate.ParseFormatted | src/calendar/mod.rs:116-127 | a valid date and time, written out, parses back to itself |
| JapaneseDate.WeekdayIgnored | src/calendar/mod.rs:112 | the weekday is matched but not checked: any of the seven gives the same result |
| JapaneseDate.February29 | src/calendar/mod.rs:124 | 29 February is accepted exactly in leap years; otherwise the day is out of range |
| JapaneseDate.LeapDayChecked | src/calendar/mod.rs:124-125 | the range check on 29 February decides by the leap-year rule alone |
| JapaneseDate.MonthCheckedFirst | src/calendar/mod.rs:124 | a month past 12 is reported, whatever else is wrong |
| AppleCalendar.ParseEvent | src/calendar/mod.rs:93-108 | a split into other than 3 parts is a `ParseError` carrying that count; with 3 parts a date that does not parse is that date's `ParseError`; Ok only with 3 parts, and then the id is part 0, the title part 1, and part 2 parses to the start time; errors are always parse errors |
| AppleCalendar.ParsedRecordShape | src/calendar/mod.rs:94-107 | a parsed record is id, `\|\|\|`, title, `\|\|\|` and a date text that parses to the start time |
| AppleCalendar.SplitRecord | src/calendar/mod.rs:94 | an id and title without `\|\|\|` that do not end in `\|`, and a date text without `\|\|\|`, are split out verbatim |
| AppleCalendar.ReadRecord | src/calendar/mod.rs:93-108 | such a record gives the event when the date parses, otherwise the date's error |
| AppleCalendar.SeparatorsInRecord | src/calendar/mod.rs:94 | a record whose id, title or date text holds `\|\|\|` splits into four parts or more |
| AppleCalendar.SeparatorInField | src/calendar/mod.rs:94-101 | such a record is rejected with `WrongPartCount` of its part count, which is at least 4 |
| AppleCalendar.NoSeparatorOnePart | src/calendar/mod.rs:94-101 | text without `\|` is one part and is rejected |
| AppleCalendar.NonEmptyPieces | src/calendar/mod.rs:81 | keeps exactly the non-empty pieces |
| AppleCalendar.NonEmptyPiecesConcat | src/calendar/mod.rs:81 | the filter distributes over concatenation, so order is kept |
| AppleCalendar.NonEmptyPiecesKeep | src/calendar/mod.rs:81 | non-empty pieces pass unchanged |
| AppleCalendar.SplitRecords | src/calendar/mod.rs:78-81 | every record is non-empty and holds no `###` |
| AppleCalendar.BlankOutputNoRecords | src/calendar/mod.rs:78-81 | blank output gives no records |
| AppleCalendar.Parsed | src/calendar/mod.rs:82 | one result per record, in order |
| AppleCalendar.Unwrapped | src/calendar/mod.rs:82-83 | Ok iff every result is Ok, with the values in order; otherwise the first error, on which `unwrap` panics |
| AppleCalendar.UnwrapValues | src/calendar/mod.rs:82-83 | results that are all values collect to exactly those values |
| AppleCalendar.GetEvents | src/calendar/mod.rs:75-90 | failure returns standard error as `ExecutionError` and only then; a returned error is never a parse error; on success it returns exactly when every record parses, and then event k is what record k parses to; a panic carries the parse error of the first record that does not parse |
| AppleCalendar.SeparatorsApart | src/calendar/mod.rs:36-37 | the two separators share no character |
| AppleCalendar.RecordTextEnds | src/calendar/mod.rs:54-56 | a record's first character is the id's first (or `\|` for an empty id) and its last is the date text's last |
| AppleCalendar.EventRecords | src/calendar/mod.rs:53-56 | one record per event, in order |
| AppleCalendar.RecordText | src/calendar/mod.rs:54-56 | a record is as long as its three fields and two `\|\|\|` |
| AppleCalendar.ScriptOutput | src/calendar/mod.rs:52-60 | empty exactly when there are no events; one event is written without any `###`, as the separator only goes between events |
| AppleCalendar.DateTextLacks | src/calendar/mod.rs:54-56 | a date in the parsed format holds neither `\|` nor `#` |
| AppleCalendar.DateTextEnd | src/calendar/mod.rs:54-56 | a date in the parsed format ends with a digit |
| AppleCalendar.FormattedWritable | src/calendar/mod.rs:54-56 | an event whose id and title hold neither separator nor end in `\|`, whose id does not start with whitespace, and whose valid start is written in the parsed format, is writable, and its date parses back |
| AppleCalendar.DateTextPlain | src/calendar/mod.rs:54-56 | a date in the parsed format holds neither separator and ends with a character that is neither whitespace nor `#` |
| AppleCalendar.ReadEventRecord | src/calendar/mod.rs:93-108 | the record of a writable event whose date text parses to its start parses back to the event |
| AppleCalendar.WritableRecord | src/calendar/mod.rs:54-56 | the record of writable fields holds no `###`, no `###` starts inside it when one follows it, and it neither starts nor ends with whitespace |
| AppleCalendar.RecordsClean | src/calendar/mod.rs:53-56 | every record of writable events is such a record |
| AppleCalendar.SplitJoinedRecords | src/calendar/mod.rs:78-81 | such records joined by `###`, followed by a line break, split back into themselves |
| AppleCalendar.TrimTrailing | src/calendar/mod.rs:79 | records joined by `###`, then `###` and a line break, trim to the join and the `###` |
| AppleCalendar.DropTrailingEmpty | src/calendar/mod.rs:81 | the filter drops the empty piece after the last record and keeps the rest |
| AppleCalendar.SplitTrailingRecords | src/calendar/mod.rs:78-81 | with `###` after the last record as well, the records are read back the same |
| AppleCalendar.SplitScriptOutput | src/calendar/mod.rs:78-81 | the script's output for writable events, with its line break, splits into their records; empty output gives none |
| AppleCalendar.LoneSeparator | src/calendar/mod.rs:78-81 | a lone `###` and a line break hold no record |
| AppleCalendar.SplitTrailingOutput | src/calendar/mod.rs:78-81 | the same output with an extra `###` at its end splits into the same records |
| AppleCalendar.ParseEventRecords | src/calendar/mod.rs:82-83 | those records parse back to the events |
| AppleCalendar.ReadScriptOutput | src/calendar/mod.rs:52-90 | round trip: for writable events whose date texts parse to their starts, `get_events` returns exactly those events, in order, for the output as written and also with an extra `###` after the last record |
| AppleCalendar.BadRecordPanics | src/calendar/mod.rs:78-83 | among written records, the first whose date does not parse makes `get_events` panic with that date's error, whatever follows it, with or without a trailing `###` |
| AppleCalendar.FirstErrorUnwrapped | src/calendar/mod.rs:82-83 | `unwrap` in order panics with the error of the first record that fails |
| AppleCalendar.LoneBadRecordPanics | src/calendar/mod.rs:78-83 | a single written record whose date does not parse makes `get_events` panic with that date's error |

## Left out

- The OAuth flow, the Google Calendar HTTP client, the SQLite store, the polling loops, the command loop and the terminal UI are I/O around the core and are not part of this model.
- `osascript` itself: the AppleScript text, the calendar name and the date window the script selects are not modelled. The process result (success flag, standard output, standard error) is a parameter of `AppleCalendar.GetEvents`. `expect` on a process that cannot start is left out.
- `String::from_utf8_lossy`: the output and error streams are taken as already-decoded strings.
- The text the script writes for a start date (`start date as string`) depends on the system locale. The round trip takes it as a parameter that must parse back to the start time, and `AppleCalendar.FormattedWritable` shows that the Japanese format qualifies.
- Error messages: `Error::ParseError` carries text in the source. The model carries the reason instead: a wrong part count with the count found, `FormatInvalid`, or the out-of-range component.
- `JapaneseDate.ParseJapaneseDate`: `\d` is modelled as ASCII digits. The regex crate's Unicode `\d` also matches other decimal digits, which would then fail `parse` with a `ParseIntError`. With ASCII digits that path (src/calendar/mod.rs:30-34) cannot occur. The regex compile error (src/calendar/mod.rs:25-29) cannot occur for the constant pattern.
- `ZoomLink.ExtractZoomLink`: `\w` in the subdomain label is modelled as ASCII letters, digits and `_`. The regex crate's Unicode `\w` also accepts other letters.
- ZoomLink.ExtractZoomLink: `\d+` in the meeting id is modelled as ASCII digits. The regex crate's Unicode `\d` also matches other decimal digits, such as full-width `０`–`９`, so such an id is found by the source and not by the model.
- Time zones and chrono parsing: instants are whole seconds since the epoch. The RFC 3339 parse panics are not modelled, and neither is sub-second truncation in `num_seconds`. The unit tests' local time zone is taken as +09:00, as their timestamps state.
- `TokenExpiry.LifetimeSeconds`: does not model three failures of the i64 and date arithmetic, because integers and instants are unbounded here. `expires_in - 60` overflows only when `expires_in` is below i64::MIN + 60 (about -9.2e18). `Duration::seconds` panics when its argument exceeds i64::MAX / 1000 in size (about ±9.2e15 seconds). Adding the duration to `updated_at` panics when the result leaves chrono's range of ±262143 years, so for lifetimes beyond about ±8.2e12 seconds.
- TokenExpiry.IsTokenExpired: the `expect` on an `expires_in` that is not an `i64` (src/oauth/is_token_expired.rs:17-18) panics. The model makes parsability a precondition (`requires HasParsableLifetime`) of `LifetimeSeconds`, `ExpiredWithMarginAt` and `IsTokenExpired` instead of an outcome. `Decimal.ParseRejects` names the texts that panic.
- AppleCalendar.ReadScriptOutput: the round trip is proved only for writable events (see above). These conditions are sufficient, not necessary: each is needed only at some positions (the first record, the last one, or one followed by another), and for events outside them no round trip is claimed.
- AppleCalendar.SplitScriptOutput: the same restriction to writable events.
- The notification lead time is one integer field. The source names it `notification_sec_from_start` in the filter and `notification_time_from_start` in the model.
