# Windows Event Log check: a Dafny model

This project models the Windows Event Log check of the agent,
`checks.d/win32_event_log.py`. The check has two parts.

- **`Win32EventLogWMI.check`** polls WMI for `Win32_NTLogEvent` rows. It
  keeps a cursor per instance key (`last_ts`). It also keeps one list of
  query clauses (`filters`), which it appends to on every later poll and
  never resets. The first poll of an instance only records the current time.
  Every later poll:
  - appends a `TimeGenerated >=` clause and the configured equality clauses;
  - turns each sampled row into a `LogEvent`;
  - emits the event dictionary of every row whose timestamp is at or after
    the cursor, in the sampler's order;
  - moves the cursor to the current time.
- **`LogEvent`** normalises one row into the dictionary the agent submits.
  It computes:
  - the epoch timestamp, from the parsed WMI time and its timezone minutes;
  - the title, `Logfile/SourceName`;
  - the message text, from Message or the non-blank InsertionStrings, plus
    `@` mentions of the notify list, stripped;
  - the alert level, from Type;
  - the aggregation key;
  - the tags, optionally with an `event_id:<code>` tag.

Modules:

- `Wrappers` (`wrappers.dfy`): `Option`, `Result`, and the Python exceptions
  the model represents (`ValueError`, `OverflowError`, `KeyError`,
  `AttributeError`). The TypeError of a None timezone or a notify entry that
  is not a string is outside the model, as "## Left out" says.
- `Calendar` (`calendar.dfy`): proleptic Gregorian ordinals and
  `calendar.timegm`.
- `DateTimes` (`datetimes.dfy`): the `datetime` range check, adding a
  `timedelta` of seconds (with its OverflowError), and whole-second order.
- `Text` (`text.dfy`): `strip`, `join`, decimal rendering.
- `LogEvents` (`log_event.dfy`): the `LogEvent` normaliser, as functions on
  values. A `LogEvent` never changes after construction.
- `EventLogCheck` (`event_log_check.dfy`): the filter clauses and the
  emission loop as specification functions. The class `Win32EventLogWmi`
  has the `lastTs` map, the `filters` list and the emitted `events` as
  fields, and its methods are proved against those functions.

The current time, the instance key and the rows the WMI sampler returns are
parameters of `Check`. A Python exception is an `Err` value. It ends the
poll where it is raised: events already emitted stay emitted, and the
cursor is not moved.

## Model

| member | source | states |
|---|---|---|
| EventLogCheck.Win32EventLogWmi.constructor | checks.d/win32_event_log.py:30-34 | a new check has no cursor, an empty filter list and has emitted nothing |
| EventLogCheck.Win32EventLogWmi.Check | checks.d/win32_event_log.py:36-96 | first poll of a key: stores `now` and changes nothing else; later poll: filters grow by exactly this poll's clauses, events grow by exactly what Emit gives for the cursor read at poll start, the cursor becomes `now` unless a row raised; other keys' cursors never change |
| EventLogCheck.Win32EventLogWmi.AppendClauses | checks.d/win32_event_log.py:58-68 | the old filter list is kept as a prefix and PollClauses is appended to it |
| EventLogCheck.Win32EventLogWmi.AppendCriterion | checks.d/win32_event_log.py:59-68 | one criterion test appends its equality clause exactly when the criterion is truthy |
| EventLogCheck.Win32EventLogWmi.EmitRows | checks.d/win32_event_log.py:81-93 | the loop appends exactly Emit's events to the emitted list and returns Emit's exception |
| EventLogCheck.Truthy | checks.d/win32_event_log.py:59-67 | a criterion can only be truthy when it is configured; None, the empty string, zero and the empty list are not truthy |
| EventLogCheck.SinceClauseWholeSeconds | checks.d/win32_event_log.py:106-112 | the cursor clause is a `TimeGenerated >=` clause, and two cursors give the same clause iff they agree on every field but the microseconds |
| EventLogCheck.PollPrefix | checks.d/win32_event_log.py:58-68 | after testing `j` criteria the poll has appended the cursor clause first and at most one clause per criterion |
| EventLogCheck.PollClauses | checks.d/win32_event_log.py:58-68 | a poll appends between one and six clauses, the first being the cursor clause |
| EventLogCheck.PollPrefixSound | checks.d/win32_event_log.py:58-68 | every clause after the cursor clause is the `=` clause of a truthy criterion |
| EventLogCheck.PollPrefixComplete | checks.d/win32_event_log.py:58-68 | every truthy criterion has its `=` clause |
| EventLogCheck.PollPrefixOrdered | checks.d/win32_event_log.py:58-68 | the `=` clauses come in the order Type, User, EventCode, SourceName, LogFile |
| EventLogCheck.PollClausesShape | checks.d/win32_event_log.py:58-68 | a poll's clauses are one `TimeGenerated >=` clause on the cursor, then one `=` clause per truthy criterion and for no other, in criterion order |
| EventLogCheck.Normalise | checks.d/win32_event_log.py:83-93 | an emitted event is never earlier than the cursor |
| EventLogCheck.NormaliseCases | checks.d/win32_event_log.py:83-93 | a row is skipped iff its LogEvent is before the cursor; it is emitted iff its LogEvent is at or after the cursor and its dictionary builds; otherwise the first exception met is raised |
| EventLogCheck.Emit | checks.d/win32_event_log.py:82-93 | no more events than rows, and every emitted event is at or after the cursor |
| EventLogCheck.Outcomes | checks.d/win32_event_log.py:82-93 | one outcome per sampled row |
| EventLogCheck.Collect | checks.d/win32_event_log.py:82-93 | the loop emits at most one event per row |
| EventLogCheck.CollectStops | checks.d/win32_event_log.py:82-93 | after the first exception, later rows change nothing |
| EventLogCheck.CollectKept | checks.d/win32_event_log.py:82-93 | with no exception, the loop emits exactly the kept events of a front-to-back reading |
| EventLogCheck.CollectFirstError | checks.d/win32_event_log.py:82-93 | the first exception ends the loop after the events kept before it |
| EventLogCheck.EmitAllKept | checks.d/win32_event_log.py:82-93 | with no exception, a poll emits the dictionary of every row at or after the cursor and nothing else, in sampler order |
| EventLogCheck.EmitFirstError | checks.d/win32_event_log.py:82-93 | the first raising row ends the poll with its exception, after the events of the rows before it |
| EventLogCheck.EmitOrigin | checks.d/win32_event_log.py:82-93 | every emitted event is the dictionary of one sampled row |
| EventLogCheck.EmitPrefix | checks.d/win32_event_log.py:82-93 | events of a prefix of the rows are a prefix of the events, and an exception in a prefix fixes the result |
| LogEvents.NewLogEvent | checks.d/win32_event_log.py:116-122 | with the id flag a missing EventCode raises AttributeError first; then a missing TimeGenerated raises KeyError; then construction succeeds iff the timestamp conversion does, with its error; fields are passed through; tags are the supplied value, or with the id flag the supplied list (empty for None) followed by exactly the event-id tag of the code |
| LogEvents.ToEventDict | checks.d/win32_event_log.py:124-136 | every field of the dictionary, and the KeyError of the first missing key among Logfile, SourceName, Type |
| LogEvents.EventDictShape | checks.d/win32_event_log.py:124-136 | the emitted text has no surrounding whitespace and the alert type is one of the three levels |
| LogEvents.IsAfter | checks.d/win32_event_log.py:138-142 | `is_after` holds iff the event's timestamp is at least the cursor's whole-second epoch time, microseconds dropped |
| LogEvents.IsAfterMeansNotBefore | checks.d/win32_event_log.py:138-142 | `is_after` holds iff the event's instant is not earlier than the cursor at whole-second precision |
| LogEvents.TzDelta | checks.d/win32_event_log.py:148-150 | the correction is the timezone minutes in seconds, negated for a `+`; the only error is OverflowError |
| LogEvents.TzDeltaRange | checks.d/win32_event_log.py:148-150 | the correction exists iff the minutes are within the `timedelta` range (a symmetric range when negated); every three-digit timezone is within it |
| LogEvents.ShiftedTime | checks.d/win32_event_log.py:147-153 | the `timedelta` is built before the `datetime`; the shifted datetime is a valid `datetime` and keeps the microseconds |
| LogEvents.WmiToTs | checks.d/win32_event_log.py:144-154 | a timezone outside the `timedelta` range raises OverflowError before anything else; otherwise ValueError iff a field is out of range; the timestamp lies within the `datetime` range; no other exception |
| LogEvents.WmiToTsIsTimegmOfShift | checks.d/win32_event_log.py:144-154 | the timestamp is `timegm` of the parsed datetime plus the timezone delta, with that route's errors |
| LogEvents.WmiToTsTimezone | checks.d/win32_event_log.py:148-150 | with zero timezone minutes the timestamp is `timegm` of the fields; the `+` sign turns the correction into a subtraction |
| LogEvents.WmiToTsIgnoresMicroseconds | checks.d/win32_event_log.py:147-154 | the microseconds never change the timestamp |
| LogEvents.InjectTags | checks.d/win32_event_log.py:156-163 | the supplied tags (none for None) come first and unchanged, followed by exactly the event-id tag of the code |
| LogEvents.EventIdTag | checks.d/win32_event_log.py:162 | the tag is `event_id:` followed by decimal digits, without leading zero, whose value is the event code |
| LogEvents.EventIdTagParse | checks.d/win32_event_log.py:162 | a tag reads back as a code iff it is that code's event-id tag, so tag and code determine each other |
| LogEvents.MsgTitle | checks.d/win32_event_log.py:165-166 | the title exists iff Logfile and SourceName do; otherwise KeyError names the first missing one |
| LogEvents.MsgTitleParts | checks.d/win32_event_log.py:165-166 | the title is Logfile, a slash, SourceName |
| LogEvents.NonBlankMembers | checks.d/win32_event_log.py:173-174 | an insertion string is kept iff it is not blank |
| LogEvents.NonBlankAppend | checks.d/win32_event_log.py:173-174 | filtering commutes with concatenation, so kept strings keep their order |
| LogEvents.MentionsSpec | checks.d/win32_event_log.py:177 | one ` @name` mention per notify entry, in order |
| LogEvents.NotifySuffix | checks.d/win32_event_log.py:176-177 | the suffix is empty iff the notify list is; for one entry it is a newline and that entry's mention; otherwise a newline then the first entry's mention |
| LogEvents.MsgBody | checks.d/win32_event_log.py:168-174 | with a Message, the Message and a newline; else with InsertionStrings, empty iff every string is blank; else empty |
| LogEvents.MsgText | checks.d/win32_event_log.py:168-179 | the body alone without a notify list; otherwise the body followed by a newline, then the rest of NotifySuffix |
| LogEvents.MessageTextIsMessage | checks.d/win32_event_log.py:130 | with a Message and no notify list, the emitted text is the stripped Message |
| LogEvents.InsertionStringsText | checks.d/win32_event_log.py:172-174 | without a Message, the text is the non-blank insertion strings joined by newlines; a blank string adds nothing |
| LogEvents.EmptyRecordEmptyText | checks.d/win32_event_log.py:168-179 | with neither Message nor InsertionStrings and no notify list, the text is empty |
| LogEvents.NotifySuffixSnoc | checks.d/win32_event_log.py:176-177 | each further notify entry adds a space and its mention |
| LogEvents.AggregationKey | checks.d/win32_event_log.py:190-191 | the key is SourceName; KeyError when it is missing |
| LogEvents.AlertType | checks.d/win32_event_log.py:181-188 | `warning` iff Type is `Warning`, `error` iff Type is `Error`, `info` for any other Type; KeyError when Type is missing |
| Text.Strip | checks.d/win32_event_log.py:130 | strip never lengthens its input |
| Text.StripSpec | checks.d/win32_event_log.py:130 | strip is empty iff the input is whitespace only, and otherwise starts and ends with a non-space |
| Text.StripBounds | checks.d/win32_event_log.py:130 | strip removes exactly the leading and trailing whitespace runs |
| Text.StripSpaceSuffix | checks.d/win32_event_log.py:171 | appending whitespace does not change the strip |
| Text.StripIdempotent | checks.d/win32_event_log.py:130 | stripping twice is stripping once |
| Text.Join | checks.d/win32_event_log.py:173-177 | joining no parts gives the empty string, one part gives that part, and the result starts with the first part |
| Text.JoinSnoc | checks.d/win32_event_log.py:173-177 | joining one more part appends the separator and the part |
| Text.DecimalStringOfValue | checks.d/win32_event_log.py:162 | a digit string without leading zero is the decimal rendering of its value |
| Text.DecimalRoundTrip | checks.d/win32_event_log.py:162 | the decimal rendering of an event code reads back as the code |
| DateTimes.NewDateTime | checks.d/win32_event_log.py:152-153 | a `datetime` is built iff every field is in range, and otherwise ValueError |
| DateTimes.AddSeconds | checks.d/win32_event_log.py:152-153 | the sum exists iff its instant is within the `datetime` range; it is then valid, has that instant and keeps the microseconds; otherwise OverflowError |
| DateTimes.InstantBounds | checks.d/win32_event_log.py:152-153 | every `datetime` lies between MinInstant and MaxInstant, which are 0001-01-01T00:00:00 and 9999-12-31T23:59:59 |
| DateTimes.EpochSecondsOrder | checks.d/win32_event_log.py:140 | `timegm` orders datetimes as their fields do, down to the second |
| Calendar.FromOrdinal | checks.d/win32_event_log.py:152-153 | the date of an ordinal is a calendar date with that ordinal |
| Calendar.FromOrdinalOfToOrdinal | checks.d/win32_event_log.py:152-153 | ordinal to date inverts date to ordinal |
| Calendar.DaysBeforeYearFormula | checks.d/win32_event_log.py:154 | the days before a year are 365 per year plus the leap days of the Gregorian rule |
| Calendar.TimeGm | checks.d/win32_event_log.py:154 | for a time of day in range, `timegm` divided by a day is the date's day count from the epoch and the remainder is the time of day in seconds |
| Calendar.TimeGmOrdinal | checks.d/win32_event_log.py:154 | `timegm` is the day ordinal's distance from the epoch in seconds plus the time of day |
| Calendar.TimeGmEpoch | checks.d/win32_event_log.py:154 | 1970-01-01T00:00:00 is second 0 |

## Left out

- WMI access is not modelled: the sampler, `sample()`, `_extract_events` and the base check. The rows a poll sees are a parameter of `Check`.
- A failing sample is not modelled. The clauses are appended before the sampler is built and sampled, so an exception there (such as `InvalidWMIQuery`) leaves `filters` grown and the cursor unmoved. `Check` always reaches the emission loop and cannot express that poll.
- `_get_instance_key` is not modelled. Its result is `Check`'s `instanceKey` parameter.
- `datetime.utcnow()` is not modelled. The current time is a parameter.
- `wmi.from_time` and `wmi.to_time` are foreign calls. The cursor clause holds the fields handed to `from_time` (WmiTimeArgs), not the formatted string. The row's time is the parsed fields plus a flag for a `+` in the raw string. A `to_time` result with None fields is not modelled.
- `self.log.debug` is not modelled. `username` and `password` only reach the sampler, so they are not modelled. `host` also feeds `_get_instance_key`, whose result is `Check`'s `instanceKey` parameter.
- `agentConfig` and `init_config` are not modelled. `api_key`, the hostname and `tag_event_id` are fields of the check.
- `self.event` is modelled as appending to the `events` field.
- Text.Strip: only the ASCII whitespace that `str.strip()` removes from byte strings is modelled. Python also strips other Unicode whitespace in `unicode` values.
- LogEvents.MsgTitle: `%s` formatting of values that are not strings is not modelled. Logfile, SourceName, Message and the notify entries are strings.
- The check catches no exception.
  - A row without Logfile, SourceName or Type raises KeyError from `to_event_dict`. A missing Type is not mapped to `info`.
  - The KeyError ends the poll, and the cursor is not moved.
  - The same holds for a ValueError or OverflowError from the timestamp conversion, and for a row without TimeGenerated (KeyError) or, with `tag_event_id`, without EventCode (AttributeError).
- The filter list is modelled as written. It is never reset, and every instance's polls append to the same list.
- No monotonic cursor is claimed: the new cursor is whatever `now` is passed.
- LogEvents.WmiToTs is the closed form: `timegm` of the parsed fields plus the timezone delta, with the range check.
  - LogEvents.WmiToTsIsTimegmOfShift proves it equal to building the `datetime`, adding the `timedelta` and taking `timegm`.
  - Calendar.FromOrdinal walks year by year, where CPython uses 400-, 100- and 4-year cycles. Calendar.FromOrdinalOfToOrdinal and FromOrdinal's ensures fix the date either way.
- `checks/libs/wmi/types.py` only declares a named tuple and exception classes, so it is not modelled.
- The mocked tests are not part of this model.
