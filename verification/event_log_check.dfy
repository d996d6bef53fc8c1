/** `Win32EventLogWMI`: the per-instance poll cursor, the WMI filter list that
    grows with every poll, and the loop that normalises and emits the rows
    the WMI sampler returns. */
module EventLogCheck {
  import opened Wrappers
  import opened DateTimes
  import opened LogEvents

  /** The key the WMI base check derives from host, namespace and class; how it is
      computed belongs to the WMI base check and is not part of this model. */
  type InstanceKey = string

  /** A value of an optional filter criterion in the instance configuration. */
  datatype ConfigValue = Str(s: string) | Num(n: int) | StrList(items: seq<string>)

  /** Python truthiness of a configuration lookup that may give None: None,
      the empty string, zero and the empty list are false. */
  predicate Truthy(v: Option<ConfigValue>): (r: bool)
    ensures r ==> v.Some?
  {
    match v
    case None => false
    case Some(Str(s)) => s != []
    case Some(Num(n)) => n != 0
    case Some(StrList(items)) => items != []
  }

  /** One configured instance. `tags` is None when configured as null (an
      absent key gives the empty list); a null `notify` behaves like an empty one. */
  datatype Instance = Instance(
    tags: Option<seq<string>>,
    notify: seq<string>,
    ltype: Option<ConfigValue>,
    user: Option<ConfigValue>,
    sourceName: Option<ConfigValue>,
    logFile: Option<ConfigValue>,
    eventId: Option<ConfigValue>)

  /** The arguments `_dt_to_wmi` hands to `wmi.from_time` (microseconds and
      timezone are always 0); the WMI string it formats is left abstract. */
  datatype WmiTimeArgs = WmiTimeArgs(year: int, month: int, day: int,
                                     hours: int, minutes: int, seconds: int)

  function DtToWmi(dt: DateTime): WmiTimeArgs {
    WmiTimeArgs(dt.year, dt.month, dt.day, dt.hour, dt.minute, dt.second)
  }

  datatype ClauseValue = Since(time: WmiTimeArgs) | Config(value: ConfigValue)

  /** One `{property: (operator, value)}` entry of the filter list. */
  datatype Clause = Clause(property: string, op: string, value: ClauseValue)

  function SinceClause(last: DateTime): Clause {
    Clause("TimeGenerated", ">=", Since(DtToWmi(last)))
  }

  /** The cursor clause compares TimeGenerated with the cursor's date and
      time down to the second: two cursors give the same clause exactly when
      they agree on every field but the microseconds. */
  lemma SinceClauseWholeSeconds(a: DateTime, b: DateTime)
    ensures SinceClause(a).property == "TimeGenerated" && SinceClause(a).op == ">="
    ensures SinceClause(a) == SinceClause(b) <==> a.(microsecond := 0) == b.(microsecond := 0)
  {
  }

  /** The optional equality criteria, in the order the check tests them. */
  const CriterionNames: seq<string> := ["Type", "User", "EventCode", "SourceName", "LogFile"]

  function Criterion(inst: Instance, j: int): Option<ConfigValue>
    requires 0 <= j < 5
  {
    if j == 0 then inst.ltype
    else if j == 1 then inst.user
    else if j == 2 then inst.eventId
    else if j == 3 then inst.sourceName
    else inst.logFile
  }

  /** Position of a property among the criteria, -1 for any other property. */
  function Rank(property: string): (j: int)
    ensures -1 <= j < 5
    ensures 0 <= j ==> CriterionNames[j] == property
  {
    if property == "Type" then 0
    else if property == "User" then 1
    else if property == "EventCode" then 2
    else if property == "SourceName" then 3
    else if property == "LogFile" then 4
    else -1
  }

  function EqClause(inst: Instance, j: int): Clause
    requires 0 <= j < 5 && Truthy(Criterion(inst, j))
  {
    Clause(CriterionNames[j], "=", Config(Criterion(inst, j).value))
  }

  /** The clause criterion `j` contributes: one when it is set, none otherwise. */
  function OptionalClause(inst: Instance, j: int): seq<Clause>
    requires 0 <= j < 5
  {
    if Truthy(Criterion(inst, j)) then [EqClause(inst, j)] else []
  }

  /** The clauses a poll has appended once it has tested criteria `0..j-1`. */
  function PollPrefix(last: DateTime, inst: Instance, j: int): (r: seq<Clause>)
    requires 0 <= j <= 5
    ensures 1 <= |r| <= 1 + j && r[0] == SinceClause(last)
  {
    if j == 0 then [SinceClause(last)]
    else PollPrefix(last, inst, j - 1) + OptionalClause(inst, j - 1)
  }

  lemma AppendOne<T>(a: seq<T>, b: seq<T>, c: T)
    ensures a + b + [c] == a + (b + [c])
  {
  }

  /** The clauses one non-first poll appends to the filter list. */
  function PollClauses(last: DateTime, inst: Instance): (r: seq<Clause>)
    ensures 1 <= |r| <= 6 && r[0] == SinceClause(last)
  {
    PollPrefix(last, inst, 5)
  }

  /** Every clause after the cursor clause is the equality clause of a set
      criterion among the first `j`. */
  lemma {:induction false} PollPrefixSound(last: DateTime, inst: Instance, j: int)
    requires 0 <= j <= 5
    ensures var r := PollPrefix(last, inst, j);
      forall c :: c in r[1..] ==>
        0 <= Rank(c.property) < j && Truthy(Criterion(inst, Rank(c.property)))
        && c == EqClause(inst, Rank(c.property))
    decreases j
  {
    if j > 0 {
      PollPrefixSound(last, inst, j - 1);
      var p := PollPrefix(last, inst, j - 1);
      assert PollPrefix(last, inst, j)[1..] == p[1..] + OptionalClause(inst, j - 1);
    }
  }

  /** Every set criterion among the first `j` has its equality clause. */
  lemma {:induction false} PollPrefixComplete(last: DateTime, inst: Instance, j: int)
    requires 0 <= j <= 5
    ensures var r := PollPrefix(last, inst, j);
      forall k :: 0 <= k < j && Truthy(Criterion(inst, k)) ==> EqClause(inst, k) in r[1..]
    decreases j
  {
    if j > 0 {
      PollPrefixComplete(last, inst, j - 1);
      var p := PollPrefix(last, inst, j - 1);
      assert PollPrefix(last, inst, j)[1..] == p[1..] + OptionalClause(inst, j - 1);
    }
  }

  /** The equality clauses come in criterion order. */
  lemma {:induction false} PollPrefixOrdered(last: DateTime, inst: Instance, j: int)
    requires 0 <= j <= 5
    ensures var r := PollPrefix(last, inst, j);
      forall a, b :: 1 <= a < b < |r| ==> Rank(r[a].property) < Rank(r[b].property)
    decreases j
  {
    if j > 0 {
      PollPrefixSound(last, inst, j - 1);
      PollPrefixOrdered(last, inst, j - 1);
      var p := PollPrefix(last, inst, j - 1);
      var o := OptionalClause(inst, j - 1);
      if o != [] {
        var r := PollPrefix(last, inst, j);
        assert r == p + o;
        assert Rank(o[0].property) == j - 1;
        forall a | 1 <= a < |p| ensures Rank(r[a].property) < j - 1 {
          assert r[a] == p[a] && p[a] in p[1..];
        }
      }
    }
  }

  /** A poll appends one `TimeGenerated >=` clause for the cursor, then one
      `=` clause for each criterion that is set and for no other, in the order
      Type, User, EventCode, SourceName, LogFile. */
  lemma PollClausesShape(last: DateTime, inst: Instance)
    ensures var r := PollClauses(last, inst);
      && 1 <= |r| <= 6 && r[0] == SinceClause(last)
      && (forall c :: c in r[1..] ==> c.op == "=" && 0 <= Rank(c.property))
      && (forall k :: 0 <= k < 5 ==> (Truthy(Criterion(inst, k)) <==> exists c :: c in r[1..] && Rank(c.property) == k))
      && (forall k :: 0 <= k < 5 && Truthy(Criterion(inst, k)) ==> EqClause(inst, k) in r[1..])
      && (forall a, b :: 1 <= a < b < |r| ==> Rank(r[a].property) < Rank(r[b].property))
  {
    var r := PollClauses(last, inst);
    PollPrefixSound(last, inst, 5);
    PollPrefixComplete(last, inst, 5);
    PollPrefixOrdered(last, inst, 5);
    forall k | 0 <= k < 5 && Truthy(Criterion(inst, k))
      ensures exists c :: c in r[1..] && Rank(c.property) == k
    {
      assert EqClause(inst, k) in r[1..] && Rank(EqClause(inst, k).property) == k;
    }
  }

  /** The per-check configuration each LogEvent receives. */
  datatype EventContext = EventContext(apiKey: string, hostname: string,
                                       tags: Option<seq<string>>, notify: seq<string>,
                                       tagEventId: bool)

  /** What the loop body makes of one row. */
  type Outcome = Result<Option<EventDict>, PyError>

  /** One row through the loop body: Ok(Some(d)) when it is emitted, Ok(None)
      when `is_after` skips it, Err when constructing the LogEvent or its
      dictionary raises. An emitted event is never earlier than the cursor. */
  function Normalise(row: RawRecord, ctx: EventContext, last: DateTime): (r: Outcome)
    requires DateTimes.Valid(last)
    ensures r.Ok? && r.value.Some? ==> r.value.value.timestamp >= EpochSeconds(last)
  {
    match NewLogEvent(row, ctx.apiKey, ctx.hostname, ctx.tags, ctx.notify, ctx.tagEventId)
    case Err(e) => Err(e)
    case Ok(le) =>
      if !IsAfter(le, last) then Ok(None)
      else
        match ToEventDict(le)
        case Err(e) => Err(e)
        case Ok(d) => Ok(Some(d))
  }

  /** A row is skipped exactly when its LogEvent exists and is before the
      cursor; it is emitted exactly when its LogEvent is at or after the
      cursor and its dictionary can be built, and the event is that
      dictionary; otherwise the exception raised is the first one met. */
  lemma NormaliseCases(row: RawRecord, ctx: EventContext, last: DateTime)
    requires DateTimes.Valid(last)
    ensures var r := Normalise(row, ctx, last);
      var le := NewLogEvent(row, ctx.apiKey, ctx.hostname, ctx.tags, ctx.notify, ctx.tagEventId);
      && (r == Ok(None) <==> le.Ok? && !IsAfter(le.value, last))
      && (r.Ok? && r.value.Some? <==> le.Ok? && IsAfter(le.value, last) && ToEventDict(le.value).Ok?)
      && (r.Ok? && r.value.Some? ==> r.value.value == ToEventDict(le.value).value)
      && (r.Err? && le.Err? ==> r.error == le.error)
      && (r.Err? && le.Ok? ==> IsAfter(le.value, last) && ToEventDict(le.value) == Err(r.error))
  {
  }

  /** The events a poll emits, and the exception that stopped it, if any. */
  datatype Emission = Emission(emitted: seq<EventDict>, error: Option<PyError>)

  /** The loop over the row outcomes, one at a time: an event is appended,
      a skipped row adds nothing, and the first exception stops the loop. */
  function Collect(outs: seq<Outcome>): (r: Emission)
    ensures |r.emitted| <= |outs|
    decreases |outs|
  {
    if outs == [] then Emission([], None)
    else
      var prev := Collect(outs[..|outs| - 1]);
      if prev.error.Some? then prev
      else
        match outs[|outs| - 1]
        case Err(e) => Emission(prev.emitted, Some(e))
        case Ok(None) => prev
        case Ok(Some(d)) => Emission(prev.emitted + [d], None)
  }

  /** The loop over the first `i + 1` outcomes is the loop over the first `i`
      followed by one more step. */
  lemma CollectNext(outs: seq<Outcome>, i: int)
    requires 0 <= i < |outs|
    ensures var prev := Collect(outs[..i]);
      Collect(outs[..i + 1]) ==
        if prev.error.Some? then prev
        else match outs[i]
          case Err(e) => Emission(prev.emitted, Some(e))
          case Ok(None) => prev
          case Ok(Some(d)) => Emission(prev.emitted + [d], None)
  {
    assert outs[..i + 1][..i] == outs[..i];
  }

  /** Once a prefix of the outcomes has raised, later outcomes change nothing. */
  lemma {:induction false} CollectStops(outs: seq<Outcome>, j: int)
    requires 0 <= j <= |outs|
    requires Collect(outs[..j]).error.Some?
    ensures Collect(outs) == Collect(outs[..j])
    decreases |outs|
  {
    if j < |outs| {
      var front := outs[..|outs| - 1];
      assert front[..j] == outs[..j];
      CollectStops(front, j);
    } else {
      assert outs[..j] == outs;
    }
  }

  /** The events of a prefix are a prefix of the events. */
  lemma {:induction false} CollectPrefix(outs: seq<Outcome>, j: int)
    requires 0 <= j <= |outs|
    ensures var p := Collect(outs[..j]).emitted;
      var e := Collect(outs).emitted;
      |p| <= |e| && e[..|p|] == p
    decreases |outs|
  {
    if j < |outs| {
      var front := outs[..|outs| - 1];
      assert front[..j] == outs[..j];
      CollectPrefix(front, j);
    } else {
      assert outs[..j] == outs;
    }
  }

  /** Every collected event is one of the outcomes. */
  lemma {:induction false} CollectOrigin(outs: seq<Outcome>, d: EventDict)
    requires d in Collect(outs).emitted
    ensures exists k :: 0 <= k < |outs| && outs[k] == Ok(Some(d))
    decreases |outs|
  {
    var front := outs[..|outs| - 1];
    if d in Collect(front).emitted {
      CollectOrigin(front, d);
      var k :| 0 <= k < |front| && front[k] == Ok(Some(d));
      assert outs[k] == front[k];
    }
  }

  /** The events of the outcomes read front to back, skipped rows left out:
      a reference for Collect when nothing raises. */
  function Kept(outs: seq<Outcome>): (r: seq<EventDict>)
    ensures |r| <= |outs|
  {
    if outs == [] then []
    else
      (match outs[0] case Ok(Some(d)) => [d] case _ => []) + Kept(outs[1..])
  }

  lemma {:induction false} KeptAppend(a: seq<Outcome>, b: seq<Outcome>)
    ensures Kept(a + b) == Kept(a) + Kept(b)
    decreases |a|
  {
    if a == [] {
      assert a + b == b;
    } else {
      assert (a + b)[1..] == a[1..] + b;
      KeptAppend(a[1..], b);
    }
  }

  /** When no outcome is an exception, the loop emits exactly the kept events,
      in order. */
  lemma {:induction false} CollectKept(outs: seq<Outcome>)
    requires forall k :: 0 <= k < |outs| ==> outs[k].Ok?
    ensures Collect(outs) == Emission(Kept(outs), None)
    decreases |outs|
  {
    if outs != [] {
      var front := outs[..|outs| - 1];
      CollectKept(front);
      KeptAppend(front, [outs[|outs| - 1]]);
      assert outs == front + [outs[|outs| - 1]];
    }
  }

  /** The first exception ends the loop: the events kept before it are
      emitted and that exception is the one raised. */
  lemma {:induction false} CollectFirstError(outs: seq<Outcome>, k: int)
    requires 0 <= k < |outs| && outs[k].Err?
    requires forall i :: 0 <= i < k ==> outs[i].Ok?
    ensures Collect(outs) == Emission(Kept(outs[..k]), Some(outs[k].error))
    decreases |outs|
  {
    var front := outs[..|outs| - 1];
    if k == |outs| - 1 {
      CollectKept(front);
    } else {
      assert front[..k] == outs[..k];
      CollectFirstError(front, k);
    }
  }

  /** The outcome of every sampled row, in the sampler's order. */
  function Outcomes(rows: seq<RawRecord>, ctx: EventContext, last: DateTime): (r: seq<Outcome>)
    requires DateTimes.Valid(last)
    ensures |r| == |rows|
  {
    seq(|rows|, k requires 0 <= k < |rows| => Normalise(rows[k], ctx, last))
  }

  /** The emission loop over the sampled rows. No emitted event is earlier
      than the cursor read at poll start. */
  function Emit(rows: seq<RawRecord>, ctx: EventContext, last: DateTime): (r: Emission)
    requires DateTimes.Valid(last)
    ensures |r.emitted| <= |rows|
    ensures forall d :: d in r.emitted ==> d.timestamp >= EpochSeconds(last)
  {
    var outs := Outcomes(rows, ctx, last);
    assert forall d :: d in Collect(outs).emitted ==> d.timestamp >= EpochSeconds(last) by {
      forall d | d in Collect(outs).emitted
        ensures d.timestamp >= EpochSeconds(last)
      {
        CollectOrigin(outs, d);
        var k :| 0 <= k < |outs| && outs[k] == Ok(Some(d));
        assert Normalise(rows[k], ctx, last) == Ok(Some(d));
      }
    }
    Collect(outs)
  }

  /** Every emitted event is the dictionary of one of the sampled rows. */
  lemma EmitOrigin(rows: seq<RawRecord>, ctx: EventContext, last: DateTime, d: EventDict)
    requires DateTimes.Valid(last)
    requires d in Emit(rows, ctx, last).emitted
    ensures exists k :: 0 <= k < |rows| && Normalise(rows[k], ctx, last) == Ok(Some(d))
  {
    var outs := Outcomes(rows, ctx, last);
    CollectOrigin(outs, d);
    var k :| 0 <= k < |outs| && outs[k] == Ok(Some(d));
    assert Normalise(rows[k], ctx, last) == Ok(Some(d));
  }

  /** The events emitted for a prefix of the rows are a prefix of the events
      emitted for all of them: events go out in the sampler's order and none
      is withdrawn; and once a prefix has raised, later rows are not read. */
  lemma EmitPrefix(rows: seq<RawRecord>, j: int, ctx: EventContext, last: DateTime)
    requires DateTimes.Valid(last) && 0 <= j <= |rows|
    ensures var p := Emit(rows[..j], ctx, last);
      var e := Emit(rows, ctx, last);
      && |p.emitted| <= |e.emitted| && e.emitted[..|p.emitted|] == p.emitted
      && (p.error.Some? ==> e == p)
  {
    var outs := Outcomes(rows, ctx, last);
    assert Outcomes(rows[..j], ctx, last) == outs[..j];
    CollectPrefix(outs, j);
    if Collect(outs[..j]).error.Some? {
      CollectStops(outs, j);
    }
  }

  /** When no row raises, a poll emits the dictionary of every row at or
      after the cursor and nothing else, in the sampler's order. */
  lemma EmitAllKept(rows: seq<RawRecord>, ctx: EventContext, last: DateTime)
    requires DateTimes.Valid(last)
    requires forall k :: 0 <= k < |rows| ==> Normalise(rows[k], ctx, last).Ok?
    ensures Emit(rows, ctx, last) == Emission(Kept(Outcomes(rows, ctx, last)), None)
  {
    CollectKept(Outcomes(rows, ctx, last));
  }

  /** The first row that raises ends the poll with that exception, after
      the events of the rows before it. */
  lemma EmitFirstError(rows: seq<RawRecord>, ctx: EventContext, last: DateTime, k: int)
    requires DateTimes.Valid(last) && 0 <= k < |rows|
    requires Normalise(rows[k], ctx, last).Err?
    requires forall i :: 0 <= i < k ==> Normalise(rows[i], ctx, last).Ok?
    ensures Emit(rows, ctx, last)
         == Emission(Kept(Outcomes(rows[..k], ctx, last)), Some(Normalise(rows[k], ctx, last).error))
  {
    var outs := Outcomes(rows, ctx, last);
    assert Outcomes(rows[..k], ctx, last) == outs[..k];
    CollectFirstError(outs, k);
  }

  /** How a call of `check` ended. */
  datatype PollOutcome = Baseline | Polled | Raised(error: PyError)

  class Win32EventLogWmi {
    /** `self.last_ts`: the cursor of every instance polled so far. */
    var lastTs: map<InstanceKey, DateTime>
    /** `self.filters`: never reset, shared by all instances. */
    var filters: seq<Clause>
    /** The events handed to `self.event`, in order. */
    var events: seq<EventDict>

    const apiKey: string
    const hostname: string
    const tagEventId: bool

    ghost predicate Valid()
      reads this
    {
      forall k :: k in lastTs ==> DateTimes.Valid(lastTs[k])
    }

    constructor (apiKey: string, hostname: string, tagEventId: bool)
      ensures Valid()
      ensures lastTs == map[] && filters == [] && events == []
      ensures this.apiKey == apiKey && this.hostname == hostname && this.tagEventId == tagEventId
    {
      this.apiKey := apiKey;
      this.hostname := hostname;
      this.tagEventId := tagEventId;
      lastTs := map[];
      filters := [];
      events := [];
    }

    function Context(instance: Instance): EventContext
    {
      EventContext(apiKey, hostname, instance.tags, instance.notify, tagEventId)
    }

    /** The filter clauses of one poll, appended to the shared list: the
        cursor clause, then one equality clause per configured criterion. */
    method AppendClauses(last: DateTime, instance: Instance)
      modifies this`filters
      ensures filters == old(filters) + PollClauses(last, instance)
    {
      filters := filters + [SinceClause(last)];
      AppendCriterion(old(filters), last, instance, 0);  // Type
      AppendCriterion(old(filters), last, instance, 1);  // User
      AppendCriterion(old(filters), last, instance, 2);  // EventCode
      AppendCriterion(old(filters), last, instance, 3);  // SourceName
      AppendCriterion(old(filters), last, instance, 4);  // LogFile
    }

    /** One `if <criterion>:` of the poll: append the equality clause of
        criterion `j` when it is set. */
    method AppendCriterion(ghost base: seq<Clause>, last: DateTime, instance: Instance, j: int)
      requires 0 <= j < 5 && filters == base + PollPrefix(last, instance, j)
      modifies this`filters
      ensures filters == base + PollPrefix(last, instance, j + 1)
    {
      if Truthy(Criterion(instance, j)) {
        AppendOne(base, PollPrefix(last, instance, j), EqClause(instance, j));
        filters := filters + [EqClause(instance, j)];
      }
    }

    /** The loop of `check` over the sampled rows: every row becomes a
        LogEvent, and one at or after the cursor is handed on as an event;
        an exception ends the loop with the events so far already emitted. */
    method EmitRows(instance: Instance, last: DateTime, rows: seq<RawRecord>)
      returns (error: Option<PyError>)
      requires DateTimes.Valid(last)
      modifies this`events
      ensures var em := Emit(rows, Context(instance), last);
        events == old(events) + em.emitted && error == em.error
    {
      ghost var ctx := Context(instance);
      ghost var all := Outcomes(rows, ctx, last);
      var i := 0;
      ghost var done := Emission([], None);
      assert all[..i] == [];
      while i < |rows|
        invariant 0 <= i <= |rows|
        invariant done == Collect(all[..i])
        invariant done.error.None? && events == old(events) + done.emitted
      {
        var step := Normalise(rows[i], Context(instance), last);
        assert step == all[i];
        CollectNext(all, i);
        match step {
          case Err(e) =>
            CollectStops(all, i + 1);
            return Some(e);
          case Ok(None) =>
          case Ok(Some(d)) =>
            AppendOne(old(events), done.emitted, d);
            events := events + [d];
        }
        done := Collect(all[..i + 1]);
        i := i + 1;
      }
      assert all[..|rows|] == all;
      error := None;
    }

    /** `check(instance)` for the instance whose key is `instanceKey`, with
        `now` the current UTC time and `rows` what the sampler returns for
        the filter list as it stands after this call's clauses are appended. */
    method Check(instance: Instance, instanceKey: InstanceKey, now: DateTime, rows: seq<RawRecord>)
      returns (outcome: PollOutcome)
      requires Valid() && DateTimes.Valid(now)
      modifies this
      ensures Valid()
      // Entries of other instances are never touched.
      ensures forall k :: k != instanceKey ==>
        (k in lastTs <==> k in old(lastTs)) && (k in lastTs ==> lastTs[k] == old(lastTs)[k])
      // First poll of an instance: record the baseline and nothing else.
      ensures instanceKey !in old(lastTs) ==>
        && outcome == Baseline
        && lastTs == old(lastTs)[instanceKey := now]
        && filters == old(filters) && events == old(events)
      // Later polls: append the clauses, emit in order, then move the cursor,
      // unless an exception stopped the loop.
      ensures instanceKey in old(lastTs) ==>
        var last := old(lastTs)[instanceKey];
        var em := Emit(rows, Context(instance), last);
        && filters == old(filters) + PollClauses(last, instance)
        && events == old(events) + em.emitted
        && (em.error.None? ==> outcome == Polled && lastTs == old(lastTs)[instanceKey := now])
        && (em.error.Some? ==> outcome == Raised(em.error.value) && lastTs == old(lastTs))
    {
      if instanceKey !in lastTs {
        lastTs := lastTs[instanceKey := now];
        return Baseline;
      }

      var last := lastTs[instanceKey];
      AppendClauses(last, instance);

      var error := EmitRows(instance, last, rows);
      if error.Some? {
        return Raised(error.value);
      }

      lastTs := lastTs[instanceKey := now];
      outcome := Polled;
    }
  }
}
