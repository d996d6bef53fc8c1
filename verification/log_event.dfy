/** `LogEvent`: turns one row of `Win32_NTLogEvent` into the event
    dictionary the agent submits. */
module LogEvents {
  import opened Wrappers
  import opened Calendar
  import opened DateTimes
  import opened Text

  const SourceTypeName := "event viewer"
  const EventType := "win32_log_event"

  /** What `wmi.to_time` returns for the `TimeGenerated` string: the date,
      the time, the microseconds and the timezone field in minutes. */
  datatype WmiTimeFields = WmiTimeFields(year: int, month: int, day: int, hour: int,
                                         minute: int, second: int, microsecond: int, tz: int)

  /** The `TimeGenerated` value: its parse, and whether the raw string
      contains a `+`. */
  datatype GeneratedTime = GeneratedTime(fields: WmiTimeFields, hasPlus: bool)

  /** One row the WMI sampler returns. Every property may be missing
      (`None`): reading TimeGenerated, Logfile, SourceName or Type by key
      from a row without it raises KeyError, reading EventCode as an
      attribute raises AttributeError, and Message and InsertionStrings are
      only tested for presence. */
  datatype RawRecord = RawRecord(
    timeGenerated: Option<GeneratedTime>,
    eventCode: Option<nat>,
    message: Option<string>,
    insertionStrings: Option<seq<string>>,
    logfile: Option<string>,
    sourceName: Option<string>,
    eventType: Option<string>)

  /** A constructed `LogEvent`: its fields never change after `__init__`. */
  datatype LogEvent = LogEvent(
    event: RawRecord,
    apiKey: string,
    hostname: string,
    tags: Option<seq<string>>,
    notifyList: seq<string>,
    timestamp: int)

  /** The dictionary `to_event_dict` returns. */
  datatype EventDict = EventDict(
    timestamp: int,
    eventType: string,
    apiKey: string,
    msgTitle: string,
    msgText: string,
    aggregationKey: string,
    alertType: string,
    sourceTypeName: string,
    host: string,
    tags: Option<seq<string>>)

  /** The largest day count a `timedelta` holds. */
  const MaxDeltaDays := 999999999

  /** A `timedelta` of `secs` seconds exists: its day count, `secs` divided
      by a day and rounded down, is at most MaxDeltaDays in magnitude. */
  predicate DeltaInRange(secs: int) {
    -MaxDeltaDays <= secs / SecondsPerDay <= MaxDeltaDays
  }

  /** The timezone correction in seconds: a `timedelta` of `tz` minutes,
      negated when the raw string has a `+`. Building the `timedelta`, or
      negating it, raises OverflowError outside the `timedelta` range. */
  function TzDelta(t: GeneratedTime): (r: Result<int, PyError>)
    ensures r.Ok? ==> r.value == (if t.hasPlus then -60 else 60) * t.fields.tz
    ensures r.Err? ==> r.error == OverflowError
  {
    var secs := 60 * t.fields.tz;
    if !DeltaInRange(secs) then Err(OverflowError)
    else if t.hasPlus then
      if DeltaInRange(-secs) then Ok(-secs) else Err(OverflowError)
    else Ok(secs)
  }

  /** The correction exists exactly for the minutes a `timedelta` can hold,
      and its negation for a slightly narrower, symmetric range; every
      three-digit timezone field is within both. */
  lemma TzDeltaRange(t: GeneratedTime)
    ensures var m := t.fields.tz;
      TzDelta(t).Ok? <==>
        if t.hasPlus then -1440 * MaxDeltaDays <= m <= 1440 * MaxDeltaDays
        else -1440 * MaxDeltaDays <= m < 1440 * (MaxDeltaDays + 1)
    ensures 0 <= t.fields.tz <= 999 ==> TzDelta(t).Ok?
  {
    var m := t.fields.tz;
    var q, q' := (60 * m) / SecondsPerDay, (-60 * m) / SecondsPerDay;
    assert q * SecondsPerDay <= 60 * m < (q + 1) * SecondsPerDay;
    assert q * 1440 <= m < (q + 1) * 1440;
    assert q' * 1440 <= -m < (q' + 1) * 1440;
  }

  predicate ValidFields(f: WmiTimeFields) {
    DateTimes.Valid(DateTimes.DateTime(f.year, f.month, f.day, f.hour, f.minute, f.second, f.microsecond))
  }

  /** The datetime `_wmi_to_ts` builds: the timezone correction first
      (OverflowError outside the `timedelta` range), then the parsed fields
      as a `datetime` (ValueError when a field is out of range), then their
      sum (OverflowError when that leaves years 1..9999). */
  function ShiftedTime(t: GeneratedTime): (r: Result<DateTime, PyError>)
    ensures r.Ok? ==> DateTimes.Valid(r.value) && r.value.microsecond == t.fields.microsecond
  {
    var delta :- TzDelta(t);
    var f := t.fields;
    var dt :- NewDateTime(f.year, f.month, f.day, f.hour, f.minute, f.second, f.microsecond);
    AddSeconds(dt, delta)
  }

  /** `_wmi_to_ts`, in seconds: `timegm` of the parsed fields plus the
      timezone correction, with the errors of ShiftedTime.
      WmiToTsIsTimegmOfShift shows it is `timegm` of ShiftedTime. */
  function WmiToTs(t: GeneratedTime): (r: Result<int, PyError>)
    ensures r.Ok? ==> MinInstant <= r.value <= MaxInstant
    ensures TzDelta(t).Err? ==> r == Err(OverflowError)
    ensures TzDelta(t).Ok? ==> (r == Err(ValueError) <==> !ValidFields(t.fields))
    ensures r.Err? ==> r.error == ValueError || r.error == OverflowError
  {
    var delta :- TzDelta(t);
    var f := t.fields;
    if !ValidFields(f) then Err(ValueError)
    else
      var ts := TimeGm(f.year, f.month, f.day, f.hour, f.minute, f.second) + delta;
      if MinInstant <= ts <= MaxInstant then Ok(ts) else Err(OverflowError)
  }

  /** The timestamp is `calendar.timegm` of the shifted datetime, and every
      error of the shift is the error of `_wmi_to_ts`. */
  lemma WmiToTsIsTimegmOfShift(t: GeneratedTime)
    ensures WmiToTs(t) == match ShiftedTime(t)
      case Ok(dt) => Ok(EpochSeconds(dt))
      case Err(e) => Err(e)
  {
    var f := t.fields;
    var dt := DateTimes.DateTime(f.year, f.month, f.day, f.hour, f.minute, f.second, f.microsecond);
    if TzDelta(t).Ok? && ValidFields(f) {
      assert NewDateTime(f.year, f.month, f.day, f.hour, f.minute, f.second, f.microsecond) == Ok(dt);
      assert ShiftedTime(t) == AddSeconds(dt, TzDelta(t).value);
    }
  }

  /** With a zero timezone field the timestamp is `timegm` of the parsed
      fields; a `+` in the raw string turns the correction of `tz` minutes
      from an addition into a subtraction. */
  lemma WmiToTsTimezone(t: GeneratedTime)
    requires ValidFields(t.fields)
    ensures var f := t.fields;
      var naive := DateTimes.DateTime(f.year, f.month, f.day, f.hour, f.minute, f.second, f.microsecond);
      f.tz == 0 ==> WmiToTs(t) == Ok(EpochSeconds(naive))
    ensures var u := t.(hasPlus := !t.hasPlus);
      WmiToTs(t).Ok? && WmiToTs(u).Ok? ==>
        WmiToTs(t).value - WmiToTs(u).value == (if t.hasPlus then -120 else 120) * t.fields.tz
  {
    var f := t.fields;
    var naive := DateTimes.DateTime(f.year, f.month, f.day, f.hour, f.minute, f.second, f.microsecond);
    InstantBounds(naive);
    TzDeltaRange(t);
  }

  /** The microseconds field only has to be in range; its value never
      changes the timestamp. */
  lemma WmiToTsIgnoresMicroseconds(t: GeneratedTime, us: int)
    requires 0 <= us < 1000000
    requires 0 <= t.fields.microsecond < 1000000
    ensures WmiToTs(t.(fields := t.fields.(microsecond := us))) == WmiToTs(t)
  {
  }

  const EventIdPrefix := "event_id:"

  /** The tag `_tags` adds: the prefix `event_id:` and the event code in
      decimal, without leading zeros. */
  function EventIdTag(code: nat): (r: string)
    ensures |r| > |EventIdPrefix| && r[..|EventIdPrefix|] == EventIdPrefix
    ensures var digits := r[|EventIdPrefix|..];
      AllDigits(digits) && DecimalValue(digits) == code && (|digits| > 1 ==> digits[0] != '0')
  {
    DecimalRoundTrip(code);
    var r := EventIdPrefix + DecimalString(code);
    assert r[|EventIdPrefix|..] == DecimalString(code);
    r
  }

  /** Reads the event code back from a tag of the form `event_id:<digits>`
      with no leading zero. */
  function ParseEventIdTag(tag: string): Option<nat> {
    if |tag| > |EventIdPrefix| && tag[..|EventIdPrefix|] == EventIdPrefix
       && AllDigits(tag[|EventIdPrefix|..])
       && (|tag| == |EventIdPrefix| + 1 || tag[|EventIdPrefix|] != '0')
    then Some(DecimalValue(tag[|EventIdPrefix|..]))
    else None
  }

  /** A tag parses to `code` exactly when it is the tag of `code`: the tag
      and the event code determine each other. */
  lemma EventIdTagParse(tag: string, code: nat)
    ensures ParseEventIdTag(tag) == Some(code) <==> tag == EventIdTag(code)
  {
    var n := |EventIdPrefix|;
    var t := EventIdTag(code);
    assert t == t[..n] + t[n..];
    if ParseEventIdTag(tag) == Some(code) {
      var digits := tag[n..];
      DecimalStringOfValue(digits);
      DecimalRoundTrip(code);
      assert DecimalString(code) == digits;
      assert t[n..] == DecimalString(code) by {
        DecimalStringOfValue(t[n..]);
      }
      assert tag == tag[..n] + tag[n..];
    }
  }

  /** `_tags`: a new list holding the supplied tags (none when they are
      None) followed by the event-id tag. */
  function InjectTags(tags: Option<seq<string>>, code: nat): (r: seq<string>)
    ensures var base := if tags.Some? then tags.value else [];
      |r| == |base| + 1 && r[..|base|] == base
    ensures r[|r| - 1] == EventIdTag(code)
  {
    (if tags.Some? then tags.value else []) + [EventIdTag(code)]
  }

  /** `LogEvent.__init__`: the tags (with the event-id tag when enabled, which
      reads EventCode first), then the timestamp from TimeGenerated; a
      missing property or a failing `_wmi_to_ts` makes the constructor raise. */
  function NewLogEvent(ev: RawRecord, apiKey: string, hostname: string,
                       tags: Option<seq<string>>, notifyList: seq<string>,
                       tagEventId: bool): (r: Result<LogEvent, PyError>)
    ensures tagEventId && ev.eventCode.None? ==> r == Err(AttributeError("EventCode"))
    ensures (tagEventId ==> ev.eventCode.Some?) && ev.timeGenerated.None? ==> r == Err(KeyError("TimeGenerated"))
    ensures (tagEventId ==> ev.eventCode.Some?) && ev.timeGenerated.Some? ==>
      && (r.Ok? <==> WmiToTs(ev.timeGenerated.value).Ok?)
      && (r.Err? ==> r.error == WmiToTs(ev.timeGenerated.value).error)
    ensures r.Ok? ==>
      && ev.timeGenerated.Some? && (tagEventId ==> ev.eventCode.Some?)
      && r.value.timestamp == WmiToTs(ev.timeGenerated.value).value
      && r.value.event == ev && r.value.apiKey == apiKey && r.value.hostname == hostname
      && r.value.notifyList == notifyList
    ensures r.Ok? && !tagEventId ==> r.value.tags == tags
    ensures r.Ok? && tagEventId ==>
      && r.value.tags.Some?
      && var base := if tags.Some? then tags.value else [];
         var t := r.value.tags.value;
         |t| == |base| + 1 && t[..|base|] == base
         && t[|base|] == EventIdTag(ev.eventCode.value)
  {
    if tagEventId && ev.eventCode.None? then Err(AttributeError("EventCode"))
    else
      var eventTags := if tagEventId then Some(InjectTags(tags, ev.eventCode.value)) else tags;
      if ev.timeGenerated.None? then Err(KeyError("TimeGenerated"))
      else
        var ts :- WmiToTs(ev.timeGenerated.value);
        Ok(LogEvent(ev, apiKey, hostname, eventTags, notifyList, ts))
  }

  /** `is_after`: the event is at or after the whole second of `ts`. */
  function IsAfter(le: LogEvent, ts: DateTime): (r: bool)
    requires DateTimes.Valid(ts)
    ensures r <==> le.timestamp >= EpochSeconds(ts.(microsecond := 0))
  {
    le.timestamp >= EpochSeconds(ts)
  }

  /** When the event's instant is itself a datetime `at`, `is_after` holds
      exactly when `at` is not earlier than `ts` at whole-second precision. */
  lemma IsAfterMeansNotBefore(le: LogEvent, at: DateTime, ts: DateTime)
    requires DateTimes.Valid(at) && DateTimes.Valid(ts)
    requires le.timestamp == EpochSeconds(at)
    ensures IsAfter(le, ts) <==> !SecondBefore(at, ts)
  {
    EpochSecondsOrder(at, ts);
  }

  /** `_msg_title`: the log file name and the source name joined by a slash;
      reading either key from a record without it raises KeyError. */
  function MsgTitle(ev: RawRecord): (r: Result<string, PyError>)
    ensures r.Ok? <==> ev.logfile.Some? && ev.sourceName.Some?
    ensures ev.logfile.None? ==> r == Err(KeyError("Logfile"))
    ensures ev.logfile.Some? && ev.sourceName.None? ==> r == Err(KeyError("SourceName"))
  {
    if ev.logfile.None? then Err(KeyError("Logfile"))
    else if ev.sourceName.None? then Err(KeyError("SourceName"))
    else Ok(ev.logfile.value + "/" + ev.sourceName.value)
  }

  /** The title splits back into the log file name, the slash and the
      source name. */
  lemma MsgTitleParts(ev: RawRecord)
    requires ev.logfile.Some? && ev.sourceName.Some?
    ensures var t := MsgTitle(ev).value;
      var n := |ev.logfile.value|;
      && |t| == n + 1 + |ev.sourceName.value|
      && t[..n] == ev.logfile.value
      && t[n] == '/'
      && t[n + 1..] == ev.sourceName.value
  {
  }

  /** `_aggregation_key`: the row's SourceName, which must be present. */
  function AggregationKey(ev: RawRecord): (r: Result<string, PyError>)
    ensures ev.sourceName.Some? ==> r == Ok(ev.sourceName.value)
    ensures ev.sourceName.None? ==> r == Err(KeyError("SourceName"))
  {
    if ev.sourceName.None? then Err(KeyError("SourceName")) else Ok(ev.sourceName.value)
  }

  /** `_alert_type`: the event `Type` as an alert level. */
  function AlertType(ev: RawRecord): (r: Result<string, PyError>)
    ensures ev.eventType.None? ==> r == Err(KeyError("Type"))
    ensures ev.eventType.Some? ==>
      && r.Ok?
      && (r.value == "warning" <==> ev.eventType.value == "Warning")
      && (r.value == "error" <==> ev.eventType.value == "Error")
      && (r.value == "info" <==> ev.eventType.value != "Warning" && ev.eventType.value != "Error")
  {
    if ev.eventType.None? then Err(KeyError("Type"))
    else if ev.eventType.value == "Warning" then Ok("warning")
    else if ev.eventType.value == "Error" then Ok("error")
    else Ok("info")
  }

  /** The entries of `InsertionStrings` that are not blank, in order. */
  function NonBlank(parts: seq<string>): (r: seq<string>)
    ensures |r| <= |parts|
  {
    if parts == [] then []
    else if Strip(parts[0]) != [] then [parts[0]] + NonBlank(parts[1..])
    else NonBlank(parts[1..])
  }

  /** An entry is kept exactly when it is not blank. */
  lemma {:induction false} NonBlankMembers(parts: seq<string>)
    ensures forall x :: x in NonBlank(parts) <==> x in parts && Strip(x) != []
    decreases |parts|
  {
    if parts != [] {
      NonBlankMembers(parts[1..]);
      assert parts == [parts[0]] + parts[1..];
    }
  }

  /** Filtering commutes with concatenation, so the kept entries keep their order. */
  lemma {:induction false} NonBlankAppend(a: seq<string>, b: seq<string>)
    ensures NonBlank(a + b) == NonBlank(a) + NonBlank(b)
    decreases |a|
  {
    if a == [] {
      assert a + b == b;
    } else {
      assert (a + b)[1..] == a[1..] + b;
      NonBlankAppend(a[1..], b);
    }
  }

  /** The mention of one name in the notify list. */
  function Mention(name: string): string {
    " @" + name
  }

  function Mentions(names: seq<string>): (r: seq<string>)
    ensures |r| == |names|
  {
    if names == [] then [] else [Mention(names[0])] + Mentions(names[1..])
  }

  /** One mention per name, in the order of the notify list. */
  lemma {:induction false} MentionsSpec(names: seq<string>)
    ensures forall k :: 0 <= k < |names| ==> Mentions(names)[k] == Mention(names[k])
    decreases |names|
  {
    if names != [] {
      MentionsSpec(names[1..]);
    }
  }

  /** The text `_msg_text` adds for a non-empty notify list. */
  function NotifySuffix(notifyList: seq<string>): (r: string)
    ensures notifyList == [] <==> r == ""
    ensures |notifyList| == 1 ==> r == "\n" + Mention(notifyList[0])
    ensures notifyList != [] ==>
      var first := Mention(notifyList[0]);
      |r| >= 1 + |first| && r[0] == '\n' && r[1..1 + |first|] == first
  {
    if notifyList == [] then "" else "\n" + Join(" ", Mentions(notifyList))
  }

  /** The body before the notify suffix. */
  function MsgBody(ev: RawRecord): (r: string)
    ensures ev.message.Some? ==>
      var m := ev.message.value;
      |r| == |m| + 1 && r[..|m|] == m && r[|m|] == '\n'
    ensures ev.message.None? && ev.insertionStrings.Some? ==>
      (r == "" <==> forall x :: x in ev.insertionStrings.value ==> Strip(x) == "")
    ensures ev.message.None? && ev.insertionStrings.None? ==> r == ""
  {
    if ev.message.Some? then ev.message.value + "\n"
    else if ev.insertionStrings.Some? then
      var parts := ev.insertionStrings.value;
      NonBlankMembers(parts);
      assert NonBlank(parts) != [] ==> NonBlank(parts)[0] in NonBlank(parts);
      Join("\n", NonBlank(parts))
    else ""
  }

  /** `_msg_text` (before `to_event_dict` strips it): the body, then the
      mentions when the notify list is not empty. */
  function MsgText(ev: RawRecord, notifyList: seq<string>): (r: string)
    ensures notifyList == [] ==> r == MsgBody(ev)
    ensures notifyList != [] ==>
      var body := MsgBody(ev);
      |r| > |body| && r[..|body|] == body && r[|body|] == '\n'
  {
    MsgBody(ev) + NotifySuffix(notifyList)
  }

  /** With a Message and no notify list, the emitted text is the stripped Message. */
  lemma MessageTextIsMessage(ev: RawRecord)
    requires ev.message.Some?
    ensures Strip(MsgText(ev, [])) == Strip(ev.message.value)
  {
    assert MsgText(ev, []) == ev.message.value + "\n";
    StripSpaceSuffix(ev.message.value, "\n");
  }

  /** Without Message and InsertionStrings and with no notify list the text is empty. */
  lemma EmptyRecordEmptyText(ev: RawRecord)
    requires ev.message.None? && ev.insertionStrings.None?
    ensures MsgText(ev, []) == ""
  {
  }

  /** Without a Message, the insertion strings' non-blank entries are joined by
      newlines; a blank entry adds nothing. */
  lemma InsertionStringsText(ev: RawRecord, blank: string)
    requires ev.message.None? && ev.insertionStrings.Some? && Strip(blank) == []
    ensures MsgText(ev, []) == Join("\n", NonBlank(ev.insertionStrings.value))
    ensures MsgText(ev.(insertionStrings := Some(ev.insertionStrings.value + [blank])), [])
         == MsgText(ev, [])
  {
    var parts := ev.insertionStrings.value;
    NonBlankAppend(parts, [blank]);
    assert NonBlank([blank]) == [];
    assert NonBlank(parts + [blank]) == NonBlank(parts);
  }

  /** Each further name in the notify list adds a space and its mention. */
  lemma NotifySuffixSnoc(notifyList: seq<string>, name: string)
    requires notifyList != []
    ensures NotifySuffix(notifyList + [name]) == NotifySuffix(notifyList) + " " + Mention(name)
  {
    var ms := Mentions(notifyList);
    MentionsSnoc(notifyList, name);
    JoinSnoc(" ", ms, Mention(name));
    assert NotifySuffix(notifyList + [name]) == "\n" + Join(" ", ms + [Mention(name)]);
  }

  lemma {:induction false} MentionsSnoc(names: seq<string>, name: string)
    ensures Mentions(names + [name]) == Mentions(names) + [Mention(name)]
    decreases |names|
  {
    if names != [] {
      assert (names + [name])[1..] == names[1..] + [name];
      MentionsSnoc(names[1..], name);
    }
  }

  /** `to_event_dict`. The values are computed in the dictionary's order, so
      the first missing key among Logfile, SourceName and Type raises. */
  function ToEventDict(le: LogEvent): (r: Result<EventDict, PyError>)
    ensures r.Ok? <==> le.event.logfile.Some? && le.event.sourceName.Some? && le.event.eventType.Some?
    ensures r.Err? ==> r.error == (if le.event.logfile.None? then KeyError("Logfile")
                                   else if le.event.sourceName.None? then KeyError("SourceName")
                                   else KeyError("Type"))
    ensures r.Ok? ==>
      var d := r.value;
      d.timestamp == le.timestamp && d.eventType == EventType && d.apiKey == le.apiKey
      && Ok(d.msgTitle) == MsgTitle(le.event)
      && d.msgText == Strip(MsgText(le.event, le.notifyList))
      && d.aggregationKey == le.event.sourceName.value
      && Ok(d.alertType) == AlertType(le.event)
      && d.sourceTypeName == SourceTypeName && d.host == le.hostname && d.tags == le.tags
  {
    var title :- MsgTitle(le.event);
    var text := Strip(MsgText(le.event, le.notifyList));
    // Cannot raise here: MsgTitle already read SourceName.
    var key := AggregationKey(le.event).value;
    var alert :- AlertType(le.event);
    Ok(EventDict(le.timestamp, EventType, le.apiKey, title, text, key, alert,
                 SourceTypeName, le.hostname, le.tags))
  }

  /** Every emitted text is free of surrounding whitespace and its alert type
      is one of the three levels. */
  lemma EventDictShape(le: LogEvent)
    requires ToEventDict(le).Ok?
    ensures var d := ToEventDict(le).value;
      (d.msgText == [] || (!IsSpace(d.msgText[0]) && !IsSpace(d.msgText[|d.msgText| - 1])))
      && d.alertType in {"info", "warning", "error"}
  {
    StripSpec(MsgText(le.event, le.notifyList));
  }
}
