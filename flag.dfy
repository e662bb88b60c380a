/**
 * `record()`: reconciling one train sighting from the departures feed with the
 * `results` table.
 *
 * A sighting's `etat` is classified into a `type`; its feed timestamp becomes
 * the stored ISO form and an ISO weekday; then the table is searched for a row
 * of the same train number dated after "now minus four hours". The first
 * matching branch of four decides what is written:
 *
 *   1. no such row: insert the sighting;
 *   2. the sighting is a cancellation and the row is not: mark the row cancelled;
 *   3. the timestamps differ: mark the row delayed, with the delay in seconds;
 *   4. the types differ: copy the new status onto the row.
 *
 * A new cancellation (branches 1 and 2) is announced with `cancel` false; a
 * cancelled row put back in service by branch 4 is announced with `cancel`
 * true. Notifications are returned as an intent rather than sent.
 */
module Flag {
  import opened Wrappers
  import opened Text
  import opened Calendar
  import opened Strtime
  import opened Utils
  import opened Store

  const Normal := "NORMAL"
  const Suppr := "SUPPR"
  const Retard := "RETARD"

  /** One `<train>` element of the feed, as the dict `record()` receives. `etat` may be absent or empty. */
  datatype Observation = Observation(
    date: string,
    num: string,
    miss: string,
    term: string,
    etat: Option<string>,
    fromGare: string,
    toGare: string)

  /** The dict after `record()` has filled in `type`, normalised `etat`, and rewritten `date` and `weekday`. */
  datatype Sighting = Sighting(
    date: string,
    num: string,
    miss: string,
    term: string,
    etat: string,
    kind: string,
    fromGare: string,
    toGare: string,
    weekday: int)

  /** The status fields of a sighting: `type` and the `etat` to store. */
  datatype Status = Status(kind: string, etat: string)

  /** Where Python raises: an unreadable timestamp in the sighting, a clock within four hours of year 1, an unreadable stored timestamp. */
  datatype RecordError = MalformedDate | ClockOutOfRange | MalformedStoredDate

  /** `notifications.send(data, cancel)`, or nothing. */
  datatype Notice = Silent | Send(data: Sighting, cancel: bool)

  /** What a branch writes to the table. */
  datatype Write = InsertRow(s: Sighting) | UpdateRow(id: int, patch: Patch) | NoWrite

  datatype Reaction = Reaction(write: Write, notice: Notice)

  /** `str.startswith`. */
  predicate StartsWith(s: string, prefix: string) {
    |prefix| <= |s| && s[..|prefix|] == prefix
  }

  predicate IsCancelToken(e: string) {
    StartsWith(e, "Suppr") || e == "S"
  }

  predicate IsDelayToken(e: string) {
    StartsWith(e, "Retard") || e == "R"
  }

  /**
   * The `etat` to `type` if-chain. A missing or empty `etat` is `NORMAL` and
   * stored as `''`; otherwise the first matching rule wins and any other text
   * becomes the type verbatim.
   */
  function Classify(etat: Option<string>): (st: Status)
    ensures st.etat == if etat.Some? then etat.value else ""
    ensures st.kind == Normal <==> etat.None? || etat.value == "" || etat.value == Normal
    ensures st.kind == Suppr <==> etat.Some? && (IsCancelToken(etat.value) || etat.value == Suppr)
    ensures st.kind == Retard <==>
              etat.Some? && !IsCancelToken(etat.value) && (IsDelayToken(etat.value) || etat.value == Retard)
    ensures etat.Some? && etat.value != "" && !IsCancelToken(etat.value) && !IsDelayToken(etat.value) ==>
              st.kind == etat.value
  {
    if etat.Some? && etat.value != "" then
      var e := etat.value;
      NotTokens(e);
      if IsCancelToken(e) then Status(Suppr, e)
      else if IsDelayToken(e) then Status(Retard, e)
      else Status(e, e)
    else Status(Normal, "")
  }

  /** The upper-case type names are not feed tokens themselves. */
  lemma NotTokens(e: string)
    ensures e == Normal ==> !IsCancelToken(e) && !IsDelayToken(e)
    ensures e == Suppr ==> !IsDelayToken(e)
    ensures e == Retard ==> !IsCancelToken(e)
  {
    if StartsWith(e, "Suppr") {
      PrefixHead(e, "Suppr");
    }
    if StartsWith(e, "Retard") {
      PrefixHead(e, "Retard");
    }
  }

  lemma PrefixHead(s: string, prefix: string)
    requires StartsWith(s, prefix) && prefix != []
    ensures s[0] == prefix[0]
  {
    assert s[..|prefix|][0] == s[0];
  }

  /** flag.py:21-35: classify the status, rewrite the date in ISO form and add its weekday. */
  function Prepare(obs: Observation): (r: Result<Sighting, RecordError>)
    ensures r.Success? <==> GetDatetime(obs.date).Some?
    ensures r.Failure? ==> r.error == MalformedDate
    ensures r.Success? ==> Readable(r.value)
  {
    var st := Classify(obs.etat);
    match ConvertToIso(obs.date)
    case None => Failure(MalformedDate)
    case Some(date) =>
      var t := GetDatetimeFromIso(date).value;
      Success(Sighting(date, obs.num, obs.miss, obs.term, st.etat, st.kind, obs.fromGare, obs.toGare, Weekday(t)))
  }

  /** A prepared sighting's date is one `get_datetime_from_iso` reads. */
  predicate Readable(s: Sighting) {
    GetDatetimeFromIso(s.date).Some?
  }

  /** The row inserted for a new sighting: every field of the dict, no delay yet. */
  function NewRow(s: Sighting): Row {
    Row(0, s.num, s.date, s.miss, s.term, s.etat, s.kind, s.fromGare, s.toGare, None, s.weekday)
  }

  /**
   * flag.py:46-82: the first matching branch, given what the lookup returned.
   * A sighting is inserted exactly when no row was found; otherwise only the
   * found row is updated, and only an identical sighting writes nothing. Only
   * the delay branch can fail, and every notice carries the sighting.
   */
  function React(s: Sighting, existing: Option<Row>): (r: Result<Reaction, RecordError>)
    ensures existing.None? ==> r.Success? && r.value.write == InsertRow(s)
    ensures existing.Some? && r.Success? ==>
              r.value.write.NoWrite? || (r.value.write.UpdateRow? && r.value.write.id == existing.value.id)
    ensures r.Success? && r.value.write.NoWrite? <==>
              existing.Some? && existing.value.date == s.date && existing.value.kind == s.kind
    ensures r.Failure? ==> existing.Some? && existing.value.date != s.date
    ensures r.Success? && r.value.notice.Send? ==> r.value.notice.data == s
  {
    if existing.None? then
      Success(Reaction(InsertRow(s), if s.kind == Suppr then Send(s, false) else Silent))
    else
      var e := existing.value;
      if s.kind != e.kind && s.kind == Suppr then
        Success(Reaction(UpdateRow(e.id, Patch(s.etat, s.kind, None)), Send(s, false)))
      else if s.date != e.date then
        match GetDatetimeFromIso(s.date)
        case None => Failure(MalformedDate)
        case Some(after) =>
          match GetDatetimeFromIso(e.date)
          case None => Failure(MalformedStoredDate)
          case Some(before) =>
            var delay := DeltaSeconds(after, before);
            Success(Reaction(UpdateRow(e.id, Patch(s.etat, Retard, Some(delay))), Silent))
      else if s.kind != e.kind then
        Success(Reaction(UpdateRow(e.id, Patch(s.etat, s.kind, None)), if e.kind == Suppr then Send(s, true) else Silent))
      else
        Success(Reaction(NoWrite, Silent))
  }

  /** The table after a write. */
  function Written(rows: seq<Row>, w: Write): seq<Row> {
    match w
    case InsertRow(s) => rows + [NewRow(s).(id := NextId(rows))]
    case UpdateRow(id, p) => Updated(rows, id, p)
    case NoWrite => rows
  }

  /**
   * The table and the result after the branch for `existing` has run. A failure
   * writes nothing; an insert appends one row after the old ones; an update keeps
   * the row count and every row with another id.
   */
  function Step(rows: seq<Row>, s: Sighting, existing: Option<Row>): (out: (seq<Row>, Result<Notice, RecordError>))
    ensures out.1.Failure? ==> out.0 == rows
    ensures existing.None? ==> |out.0| == |rows| + 1 && out.0[..|rows|] == rows
    ensures existing.Some? ==>
              |out.0| == |rows| &&
              forall i :: 0 <= i < |rows| && rows[i].id != existing.value.id ==> out.0[i] == rows[i]
  {
    match React(s, existing)
    case Failure(err) => (rows, Failure(err))
    case Success(r) =>
      if r.write.UpdateRow? then
        UpdatedFrame(rows, r.write.id, r.write.patch);
        (Written(rows, r.write), Success(r.notice))
      else
        assert existing.None? ==> Written(rows, r.write)[..|rows|] == rows;
        (Written(rows, r.write), Success(r.notice))
  }

  /** The stored form of the look-back limit, as the database compares it. */
  function LimitText(now: DateTime): Option<string>
    requires Valid(now)
  {
    match GetLimitDate(now)
    case None => None
    case Some(limit) => Some(GetDatestring(limit))
  }

  /**
   * What one call of `record()` may do to the table `rows`: fail before
   * touching it, or run the branch chosen by some row `find_one` may return.
   */
  ghost predicate Recorded(rows: seq<Row>, obs: Observation, now: DateTime, rows': seq<Row>, result: Result<Notice, RecordError>)
    requires Valid(now)
  {
    match Prepare(obs)
    case Failure(err) => rows' == rows && result == Failure(err)
    case Success(s) =>
      match LimitText(now)
      case None => rows' == rows && result == Failure(ClockOutOfRange)
      case Some(limit) =>
        exists existing :: Lookup(rows, s.num, limit, existing) && Step(rows, s, existing) == (rows', result)
  }

  /** `record(data)` with the clock reading `now`. */
  method Record(table: ResultsTable, obs: Observation, now: DateTime) returns (result: Result<Notice, RecordError>)
    requires table.Valid() && Valid(now)
    modifies table
    ensures table.Valid()
    ensures Recorded(old(table.rows), obs, now, table.rows, result)
  {
    var st := Classify(obs.etat);
    var iso := ConvertToIso(obs.date);
    if iso.None? {
      RecordedEarlyFailure(table.rows, obs, now);
      return Failure(MalformedDate);
    }
    var date := iso.value;
    var weekday := Weekday(GetDatetimeFromIso(date).value);
    var s := Sighting(date, obs.num, obs.miss, obs.term, st.etat, st.kind, obs.fromGare, obs.toGare, weekday);
    assert Prepare(obs) == Success(s);

    var limitDate := GetLimitDate(now);
    if limitDate.None? {
      RecordedEarlyFailure(table.rows, obs, now);
      return Failure(ClockOutOfRange);
    }
    var limit := GetDatestring(limitDate.value);
    assert LimitText(now) == Some(limit);
    var existing := table.FindOne(s.num, limit);
    ghost var rows := table.rows;

    var doNotif := false;
    var notice := Silent;
    if existing.None? {
      if s.kind == Suppr {
        doNotif := true;
      }
      var _ := table.Insert(NewRow(s));
      StepInsert(rows, s);
    } else if s.kind != existing.value.kind && s.kind == Suppr {
      doNotif := true;
      table.Update(existing.value.id, Patch(s.etat, s.kind, None));
      StepCancel(rows, s, existing.value);
    } else if s.date != existing.value.date {
      var later := GetDatetimeFromIso(s.date).value;
      var earlier := GetDatetimeFromIso(existing.value.date);
      StepDelay(rows, s, existing.value);
      if earlier.None? {
        RecordedFromStep(rows, obs, now, s, limit, existing, rows, Failure(MalformedStoredDate));
        return Failure(MalformedStoredDate);
      }
      var delay := DeltaSeconds(later, earlier.value);
      table.Update(existing.value.id, Patch(s.etat, Retard, Some(delay)));
    } else if s.kind != existing.value.kind {
      table.Update(existing.value.id, Patch(s.etat, s.kind, None));
      StepFlip(rows, s, existing.value);
      if existing.value.kind == Suppr {
        notice := Send(s, true);
      }
    } else {
      StepUnchanged(rows, s, existing.value);
    }
    if doNotif {
      notice := Send(s, false);
    }
    result := Success(notice);
    RecordedFromStep(rows, obs, now, s, limit, existing, table.rows, result);
  }

  // ---------------------------------------------------------------------------
  // The branches of `Step`, one at a time

  lemma StepInsert(rows: seq<Row>, s: Sighting)
    ensures Step(rows, s, None) ==
              (rows + [NewRow(s).(id := NextId(rows))], Success(if s.kind == Suppr then Send(s, false) else Silent))
  {
  }

  lemma StepCancel(rows: seq<Row>, s: Sighting, e: Row)
    requires s.kind != e.kind && s.kind == Suppr
    ensures Step(rows, s, Some(e)) == (Updated(rows, e.id, Patch(s.etat, s.kind, None)), Success(Send(s, false)))
  {
  }

  lemma StepDelay(rows: seq<Row>, s: Sighting, e: Row)
    requires Readable(s) && !(s.kind != e.kind && s.kind == Suppr) && s.date != e.date
    ensures GetDatetimeFromIso(e.date).None? ==> Step(rows, s, Some(e)) == (rows, Failure(MalformedStoredDate))
    ensures GetDatetimeFromIso(e.date).Some? ==>
              Step(rows, s, Some(e)) ==
                (Updated(rows, e.id, Patch(s.etat, Retard,
                   Some(DeltaSeconds(GetDatetimeFromIso(s.date).value, GetDatetimeFromIso(e.date).value)))),
                 Success(Silent))
  {
  }

  lemma StepFlip(rows: seq<Row>, s: Sighting, e: Row)
    requires !(s.kind != e.kind && s.kind == Suppr) && s.date == e.date && s.kind != e.kind
    ensures Step(rows, s, Some(e)) ==
              (Updated(rows, e.id, Patch(s.etat, s.kind, None)), Success(if e.kind == Suppr then Send(s, true) else Silent))
  {
  }

  lemma StepUnchanged(rows: seq<Row>, s: Sighting, e: Row)
    requires s.date == e.date && s.kind == e.kind
    ensures Step(rows, s, Some(e)) == (rows, Success(Silent))
  {
  }

  lemma RecordedEarlyFailure(rows: seq<Row>, obs: Observation, now: DateTime)
    requires Valid(now)
    ensures ConvertToIso(obs.date).None? ==> Recorded(rows, obs, now, rows, Failure(MalformedDate))
    ensures ConvertToIso(obs.date).Some? && GetLimitDate(now).None? ==>
              Recorded(rows, obs, now, rows, Failure(ClockOutOfRange))
  {
  }

  lemma RecordedFromStep(rows: seq<Row>, obs: Observation, now: DateTime, s: Sighting, limit: string,
                         existing: Option<Row>, rows': seq<Row>, result: Result<Notice, RecordError>)
    requires Valid(now) && Prepare(obs) == Success(s) && LimitText(now) == Some(limit)
    requires Lookup(rows, s.num, limit, existing) && Step(rows, s, existing) == (rows', result)
    ensures Recorded(rows, obs, now, rows', result)
  {
  }

  // ---------------------------------------------------------------------------
  // Properties of the table

  /** Only `etat`, `type` and, when one is given, `delay` of the rows with this id change; nothing is added or removed. */
  predicate PatchedOnly(rows: seq<Row>, rows': seq<Row>, id: int, etat: string, kind: string, delay: Option<int>) {
    SameKeys(rows, rows') &&
    (forall i :: 0 <= i < |rows| ==>
       rows'[i].miss == rows[i].miss && rows'[i].term == rows[i].term && rows'[i].fromGare == rows[i].fromGare &&
       rows'[i].toGare == rows[i].toGare && rows'[i].weekday == rows[i].weekday) &&
    (forall i :: 0 <= i < |rows| && rows[i].id != id ==> rows'[i] == rows[i]) &&
    (forall i :: 0 <= i < |rows| && rows[i].id == id ==>
       rows'[i].etat == etat && rows'[i].kind == kind && rows'[i].delay == if delay.Some? then delay else rows[i].delay)
  }

  /** Same rows, in the same order, with the same ids, numbers and timestamps. */
  predicate SameKeys(rows: seq<Row>, rows': seq<Row>) {
    |rows'| == |rows| &&
    forall i :: 0 <= i < |rows| ==>
      rows'[i].id == rows[i].id && rows'[i].num == rows[i].num && rows'[i].date == rows[i].date
  }

  /** A stored timestamp that is the ISO form of the instant it denotes: what `record()` writes. */
  predicate WellStored(r: Row) {
    GetDatetimeFromIso(r.date).Some? && GetDatestring(GetDatetimeFromIso(r.date).value) == r.date
  }

  predicate AllWellStored(rows: seq<Row>) {
    forall i :: 0 <= i < |rows| ==> WellStored(rows[i])
  }

  /** No two rows of the same train number are both dated after `limit`. */
  predicate SingleMatch(rows: seq<Row>, limit: string) {
    forall i, j :: 0 <= i < j < |rows| && rows[i].num == rows[j].num ==>
      !(LexLess(limit, rows[i].date) && LexLess(limit, rows[j].date))
  }

  // ---------------------------------------------------------------------------
  // Lemmas: one sighting

  /**
   * A sighting exists exactly when the feed timestamp parses; it then carries
   * the ISO form of that instant (seconds 00, readable back), its ISO weekday,
   * the classified status and the identity fields unchanged.
   */
  lemma PrepareSighting(obs: Observation)
    ensures Prepare(obs).Success? <==> GetDatetime(obs.date).Some?
    ensures Prepare(obs).Success? ==>
              var s := Prepare(obs).value;
              var t := GetDatetime(obs.date).value;
              ConvertToIso(obs.date) == Some(s.date) && s.date == GetDatestring(t) && t.second == 0 && GetDatetimeFromIso(s.date) == Some(t) &&
              s.weekday == Weekday(t) && 1 <= s.weekday <= 7 &&
              Status(s.kind, s.etat) == Classify(obs.etat) &&
              s.num == obs.num && s.miss == obs.miss && s.term == obs.term &&
              s.fromGare == obs.fromGare && s.toGare == obs.toGare
  {
  }

  lemma UpdatedPatched(rows: seq<Row>, id: int, p: Patch)
    ensures PatchedOnly(rows, Updated(rows, id, p), id, p.etat, p.kind, p.delay)
  {
    UpdatedFrame(rows, id, p);
  }

  /** flag.py:47-50, 81-82: with no row found, the sighting is appended under a fresh id and no delay; only a cancellation is announced. */
  lemma InsertBranch(rows: seq<Row>, s: Sighting)
    ensures var rows' := Step(rows, s, None).0;
              |rows'| == |rows| + 1 && rows'[..|rows|] == rows &&
              rows'[|rows|].id >= 1 && !HasId(rows, rows'[|rows|].id) &&
              rows'[|rows|] == Row(rows'[|rows|].id, s.num, s.date, s.miss, s.term, s.etat, s.kind, s.fromGare, s.toGare, None, s.weekday)
    ensures Step(rows, s, None).1 == Success(if s.kind == Suppr then Send(s, false) else Silent)
  {
    StepInsert(rows, s);
  }

  /** flag.py:52-58, 81-82: a cancellation of a row not yet cancelled sets its `etat` and `type` only and is announced with `cancel` false. */
  lemma CancelBranch(rows: seq<Row>, s: Sighting, e: Row)
    requires s.kind != e.kind && s.kind == Suppr
    ensures PatchedOnly(rows, Step(rows, s, Some(e)).0, e.id, s.etat, Suppr, None)
    ensures Step(rows, s, Some(e)).1 == Success(Send(s, false))
  {
    StepCancel(rows, s, e);
    UpdatedPatched(rows, e.id, Patch(s.etat, s.kind, None));
  }

  /**
   * flag.py:60-69: a new timestamp marks the row RETARD with `delay` the
   * seconds part of the difference, (new - old) mod 86400: the exact difference
   * when the train is later by under a day, a wrapped value when it is earlier.
   * Nothing is announced, whatever the status. An unreadable timestamp, new or
   * stored, raises before anything is written.
   */
  lemma DelayBranch(rows: seq<Row>, s: Sighting, e: Row)
    requires !(s.kind != e.kind && s.kind == Suppr) && s.date != e.date
    ensures GetDatetimeFromIso(s.date).None? ==> Step(rows, s, Some(e)) == (rows, Failure(MalformedDate))
    ensures GetDatetimeFromIso(s.date).Some? && GetDatetimeFromIso(e.date).None? ==>
              Step(rows, s, Some(e)) == (rows, Failure(MalformedStoredDate))
    ensures GetDatetimeFromIso(s.date).Some? && GetDatetimeFromIso(e.date).Some? ==>
              var later := GetDatetimeFromIso(s.date).value;
              var earlier := GetDatetimeFromIso(e.date).value;
              var delay := DeltaSeconds(later, earlier);
              var diff := ToSeconds(later) - ToSeconds(earlier);
              PatchedOnly(rows, Step(rows, s, Some(e)).0, e.id, s.etat, Retard, Some(delay)) &&
              Step(rows, s, Some(e)).1 == Success(Silent) &&
              0 <= delay < SecondsPerDay && (diff - delay) % SecondsPerDay == 0 &&
              (0 <= diff < SecondsPerDay ==> delay == diff) &&
              (-SecondsPerDay < diff < 0 ==> delay == SecondsPerDay + diff)
  {
    if GetDatetimeFromIso(s.date).Some? {
      StepDelay(rows, s, e);
    }
    if GetDatetimeFromIso(s.date).Some? && GetDatetimeFromIso(e.date).Some? {
      var later := GetDatetimeFromIso(s.date).value;
      var earlier := GetDatetimeFromIso(e.date).value;
      UpdatedPatched(rows, e.id, Patch(s.etat, Retard, Some(DeltaSeconds(later, earlier))));
      DeltaSecondsWithinDay(later, earlier);
    }
  }

  /** flag.py:71-79: same timestamp, other status: `etat` and `type` are copied; a cancelled row put back in service is announced with `cancel` true. */
  lemma FlipBranch(rows: seq<Row>, s: Sighting, e: Row)
    requires !(s.kind != e.kind && s.kind == Suppr) && s.date == e.date && s.kind != e.kind
    ensures PatchedOnly(rows, Step(rows, s, Some(e)).0, e.id, s.etat, s.kind, None)
    ensures Step(rows, s, Some(e)).1 == Success(if e.kind == Suppr then Send(s, true) else Silent)
  {
    StepFlip(rows, s, e);
    UpdatedPatched(rows, e.id, Patch(s.etat, s.kind, None));
  }

  /**
   * flag.py:46-82: a cancellation not yet on record is announced with `cancel`
   * false; a cancelled row seen in service at the same timestamp is announced
   * with `cancel` true; nothing else is announced, and an announcement carries
   * the sighting.
   */
  lemma NoticeIff(rows: seq<Row>, s: Sighting, existing: Option<Row>)
    ensures Step(rows, s, existing).1 == Success(Send(s, false)) <==>
              s.kind == Suppr && (existing.None? || existing.value.kind != Suppr)
    ensures Step(rows, s, existing).1 == Success(Send(s, true)) <==>
              existing.Some? && existing.value.kind == Suppr && s.kind != Suppr && s.date == existing.value.date
    ensures Step(rows, s, existing).1.Success? && Step(rows, s, existing).1.value.Send? ==>
              Step(rows, s, existing).1.value.data == s
  {
  }

  /** An update through any branch keeps every row's id, number and timestamp. */
  lemma StepKeepsKeys(rows: seq<Row>, s: Sighting, e: Row)
    ensures SameKeys(rows, Step(rows, s, Some(e)).0)
  {
    if s.kind != e.kind && s.kind == Suppr {
      CancelBranch(rows, s, e);
    } else if s.date != e.date {
      DelayBranch(rows, s, e);
    } else if s.kind != e.kind {
      FlipBranch(rows, s, e);
    } else {
      StepUnchanged(rows, s, e);
    }
  }

  /**
   * Branch 3 never rewrites the stored timestamp. A train recorded at one time
   * and then cancelled at another is announced; the next identical cancellation
   * finds the timestamps still different and silently turns the row back into
   * RETARD; and the one after takes the cancellation branch again and announces
   * the cancellation a second time. While the row stays in the window it
   * alternates, and the notice repeats every other sighting.
   */
  lemma CancelThenRepeat(rows: seq<Row>, s: Sighting, k: int)
    requires Readable(s) && 0 <= k < |rows|
    requires s.kind == Suppr && rows[k].kind != Suppr && s.date != rows[k].date
    requires GetDatetimeFromIso(rows[k].date).Some?
    ensures var first := Step(rows, s, Some(rows[k]));
            first.1 == Success(Send(s, false)) && first.0[k].kind == Suppr &&
            var second := Step(first.0, s, Some(first.0[k]));
            second.1 == Success(Silent) && second.0[k].kind == Retard && second.0[k].date == rows[k].date &&
            var third := Step(second.0, s, Some(second.0[k]));
            third.1 == Success(Send(s, false)) && third.0[k].kind == Suppr && third.0[k].date == rows[k].date
  {
    var e := rows[k];
    CancelBranch(rows, s, e);
    var rows1 := Step(rows, s, Some(e)).0;
    assert rows1[k].date == e.date && rows1[k].kind == Suppr;
    DelayBranch(rows1, s, rows1[k]);
    StepKeepsKeys(rows1, s, rows1[k]);
    var rows2 := Step(rows1, s, Some(rows1[k])).0;
    assert |rows2| == |rows1| && rows2[k].kind == Retard && rows2[k].date == e.date;
    CancelBranch(rows2, s, rows2[k]);
    StepKeepsKeys(rows2, s, rows2[k]);
  }

  // ---------------------------------------------------------------------------
  // Lemmas: the lookup and one call of `record()`

  /** flag.py:34-44: `record()` raises, writing nothing, on an unreadable feed timestamp or a clock within four hours of year 1. */
  lemma RecordedFailure(rows: seq<Row>, obs: Observation, now: DateTime, rows': seq<Row>, result: Result<Notice, RecordError>)
    requires Valid(now) && Recorded(rows, obs, now, rows', result)
    ensures GetDatetime(obs.date).None? ==> rows' == rows && result == Failure(MalformedDate)
    ensures GetDatetime(obs.date).Some? && ToSeconds(now) < MinSeconds + 14400 ==>
              rows' == rows && result == Failure(ClockOutOfRange)
    ensures result.Failure? ==> rows' == rows
  {
    PrepareSighting(obs);
  }

  /** The row `find_one` returned in a successful lookup, as `Recorded` says one exists. */
  lemma RecordedChoice(rows: seq<Row>, obs: Observation, now: DateTime, rows': seq<Row>, result: Result<Notice, RecordError>)
      returns (existing: Option<Row>)
    requires Valid(now) && Recorded(rows, obs, now, rows', result)
    requires Prepare(obs).Success? && LimitText(now).Some?
    ensures Lookup(rows, Prepare(obs).value.num, LimitText(now).value, existing)
    ensures Step(rows, Prepare(obs).value, existing) == (rows', result)
  {
    existing :| Lookup(rows, Prepare(obs).value.num, LimitText(now).value, existing) &&
                Step(rows, Prepare(obs).value, existing) == (rows', result);
  }

  /**
   * flag.py:40-50: `find_one` comes back empty exactly when no row of the same
   * number is dated after the limit, and then the sighting is inserted;
   * otherwise the branch runs on one such row, which is the only candidate when
   * there is only one.
   */
  lemma RecordedLookup(rows: seq<Row>, obs: Observation, now: DateTime, rows': seq<Row>, result: Result<Notice, RecordError>)
    requires Valid(now) && Recorded(rows, obs, now, rows', result)
    requires Prepare(obs).Success? && LimitText(now).Some?
    ensures var s := Prepare(obs).value;
            var limit := LimitText(now).value;
            (forall i :: 0 <= i < |rows| ==> !Matches(rows[i], s.num, limit)) ==>
              (rows', result) == Step(rows, s, None)
    ensures var s := Prepare(obs).value;
            var limit := LimitText(now).value;
            (exists i :: 0 <= i < |rows| && Matches(rows[i], s.num, limit)) ==>
              exists e :: e in rows && Matches(e, s.num, limit) && (rows', result) == Step(rows, s, Some(e))
    ensures var s := Prepare(obs).value;
            var limit := LimitText(now).value;
            SingleMatch(rows, limit) ==>
              forall i :: 0 <= i < |rows| && Matches(rows[i], s.num, limit) ==>
                (rows', result) == Step(rows, s, Some(rows[i]))
  {
    var existing := RecordedChoice(rows, obs, now, rows', result);
    LookupChoice(rows, Prepare(obs).value, LimitText(now).value, existing);
  }

  /** What the lookup may return decides the branch, and there is no choice when only one row qualifies. */
  lemma LookupChoice(rows: seq<Row>, s: Sighting, limit: string, existing: Option<Row>)
    requires Lookup(rows, s.num, limit, existing)
    ensures (forall i :: 0 <= i < |rows| ==> !Matches(rows[i], s.num, limit)) ==> existing.None?
    ensures (exists i :: 0 <= i < |rows| && Matches(rows[i], s.num, limit)) ==>
              existing.Some? && existing.value in rows && Matches(existing.value, s.num, limit)
    ensures SingleMatch(rows, limit) ==>
              forall i :: 0 <= i < |rows| && Matches(rows[i], s.num, limit) ==> existing == Some(rows[i])
  {
    if existing.Some? {
      var k :| 0 <= k < |rows| && rows[k] == existing.value;
      forall i | 0 <= i < |rows| && Matches(rows[i], s.num, limit) && SingleMatch(rows, limit)
        ensures existing == Some(rows[i])
      {
        assert rows[i] == rows[k];
      }
    }
  }

  /** flag.py:41 on stored ISO timestamps: a row is found exactly when it is the same train dated less than four hours before `now`. */
  lemma MatchesWindow(r: Row, num: string, now: DateTime)
    requires Valid(now) && WellStored(r) && LimitText(now).Some?
    ensures Matches(r, num, LimitText(now).value) <==>
              r.num == num && ToSeconds(GetDatetimeFromIso(r.date).value) > ToSeconds(now) - 14400
  {
    var t := GetDatetimeFromIso(r.date).value;
    DatestringOrder(GetLimitDate(now).value, t);
  }

  /** A train whose earlier rows are all at least four hours old gets a row of its own, as when it runs again the next day. */
  lemma StaleRowsIgnored(rows: seq<Row>, obs: Observation, now: DateTime, rows': seq<Row>, result: Result<Notice, RecordError>)
    requires Valid(now) && Recorded(rows, obs, now, rows', result)
    requires Prepare(obs).Success? && LimitText(now).Some? && AllWellStored(rows)
    requires forall i :: 0 <= i < |rows| && rows[i].num == obs.num ==>
               ToSeconds(GetDatetimeFromIso(rows[i].date).value) <= ToSeconds(now) - 14400
    ensures |rows'| == |rows| + 1 && rows'[..|rows|] == rows
    ensures rows'[|rows|].num == obs.num && rows'[|rows|].date == Prepare(obs).value.date
  {
    var s := Prepare(obs).value;
    var limit := LimitText(now).value;
    PrepareSighting(obs);
    forall i | 0 <= i < |rows|
      ensures !Matches(rows[i], s.num, limit)
    {
      MatchesWindow(rows[i], s.num, now);
    }
    RecordedLookup(rows, obs, now, rows', result);
    InsertBranch(rows, s);
  }

  // ---------------------------------------------------------------------------
  // Lemmas: invariants of the table

  /** A branch keeps every stored timestamp in ISO form when the sighting's is, and then never meets an unreadable one. */
  lemma StepKeepsWellStored(rows: seq<Row>, s: Sighting, existing: Option<Row>)
    requires Readable(s) && GetDatestring(GetDatetimeFromIso(s.date).value) == s.date
    requires AllWellStored(rows) && (existing.Some? ==> existing.value in rows)
    ensures AllWellStored(Step(rows, s, existing).0)
    ensures Step(rows, s, existing).1 != Failure(MalformedStoredDate)
  {
    if existing.None? {
      InsertKeepsWellStored(rows, s);
    } else {
      UpdateKeepsWellStored(rows, s, existing.value);
    }
  }

  lemma InsertKeepsWellStored(rows: seq<Row>, s: Sighting)
    requires Readable(s) && GetDatestring(GetDatetimeFromIso(s.date).value) == s.date && AllWellStored(rows)
    ensures AllWellStored(Step(rows, s, None).0)
  {
    var r := NewRow(s).(id := NextId(rows));
    assert WellStored(r) by {
      assert r.date == s.date;
    }
    StepInsert(rows, s);
    AppendKeepsWellStored(rows, r);
  }

  lemma AppendKeepsWellStored(rows: seq<Row>, r: Row)
    requires AllWellStored(rows) && WellStored(r)
    ensures AllWellStored(rows + [r])
  {
    forall i | 0 <= i < |rows + [r]|
      ensures WellStored((rows + [r])[i])
    {
      if i < |rows| {
        assert (rows + [r])[i] == rows[i];
      }
    }
  }

  lemma UpdateKeepsWellStored(rows: seq<Row>, s: Sighting, e: Row)
    requires AllWellStored(rows) && e in rows
    ensures AllWellStored(Step(rows, s, Some(e)).0)
    ensures Step(rows, s, Some(e)).1 != Failure(MalformedStoredDate)
  {
    var rows' := Step(rows, s, Some(e)).0;
    StepKeepsKeys(rows, s, e);
    forall i | 0 <= i < |rows'|
      ensures WellStored(rows'[i])
    {
      assert rows'[i].date == rows[i].date;
    }
    var k :| 0 <= k < |rows| && rows[k] == e;
    assert WellStored(rows[k]);
    if !(s.kind != e.kind && s.kind == Suppr) && s.date != e.date {
      DelayBranch(rows, s, e);
    }
  }

  /** Every row `record()` writes has its timestamp in ISO form, so the stored-timestamp error cannot arise on such a table. */
  lemma RecordedKeepsWellStored(rows: seq<Row>, obs: Observation, now: DateTime, rows': seq<Row>, result: Result<Notice, RecordError>)
    requires Valid(now) && Recorded(rows, obs, now, rows', result) && AllWellStored(rows)
    ensures AllWellStored(rows')
    ensures result != Failure(MalformedStoredDate)
  {
    if Prepare(obs).Success? && LimitText(now).Some? {
      var s := Prepare(obs).value;
      var limit := LimitText(now).value;
      PrepareSighting(obs);
      var existing := RecordedChoice(rows, obs, now, rows', result);
      StepKeepsWellStored(rows, s, existing);
    }
  }

  /** A branch run on what the lookup returned keeps one candidate per number under the same limit. */
  lemma StepKeepsSingleMatch(rows: seq<Row>, s: Sighting, limit: string, existing: Option<Row>)
    requires Lookup(rows, s.num, limit, existing) && SingleMatch(rows, limit)
    ensures SingleMatch(Step(rows, s, existing).0, limit)
  {
    var rows' := Step(rows, s, existing).0;
    if existing.None? {
      InsertBranch(rows, s);
      forall i, j | 0 <= i < j < |rows'| && rows'[i].num == rows'[j].num
        ensures !(LexLess(limit, rows'[i].date) && LexLess(limit, rows'[j].date))
      {
        assert rows'[i] == rows'[..|rows|][i] == rows[i];
        if j < |rows| {
          assert rows'[j] == rows'[..|rows|][j] == rows[j];
        } else {
          assert !Matches(rows[i], s.num, limit);
        }
      }
    } else {
      StepKeepsKeys(rows, s, existing.value);
    }
  }

  /** Within one window, `record()` never leaves two rows of the same number both dated after the limit. */
  lemma RecordedKeepsSingleMatch(rows: seq<Row>, obs: Observation, now: DateTime, rows': seq<Row>, result: Result<Notice, RecordError>)
    requires Valid(now) && Recorded(rows, obs, now, rows', result)
    requires LimitText(now).Some? && SingleMatch(rows, LimitText(now).value)
    ensures SingleMatch(rows', LimitText(now).value)
  {
    if Prepare(obs).Success? {
      var s := Prepare(obs).value;
      var limit := LimitText(now).value;
      var existing := RecordedChoice(rows, obs, now, rows', result);
      StepKeepsSingleMatch(rows, s, limit, existing);
    }
  }

  /** A later clock has a later limit, so a table with one candidate per number keeps that property as time passes. */
  lemma LaterClockKeepsSingleMatch(rows: seq<Row>, now: DateTime, now': DateTime)
    requires Valid(now) && Valid(now') && ToSeconds(now) <= ToSeconds(now')
    requires LimitText(now).Some? && SingleMatch(rows, LimitText(now).value)
    ensures LimitText(now').Some? && SingleMatch(rows, LimitText(now').value)
  {
    LaterLimit(now, now');
    if LimitText(now) != LimitText(now') {
      SingleMatchLaterLimit(rows, LimitText(now).value, LimitText(now').value);
    }
  }

  lemma LaterLimit(now: DateTime, now': DateTime)
    requires Valid(now) && Valid(now') && ToSeconds(now) <= ToSeconds(now') && LimitText(now).Some?
    ensures LimitText(now').Some?
    ensures LimitText(now) == LimitText(now') || LexLess(LimitText(now).value, LimitText(now').value)
  {
    var a := GetLimitDate(now).value;
    var b := GetLimitDate(now').value;
    ChronologicalOrder(a, b);
    DatestringOrder(a, b);
  }

  lemma SingleMatchLaterLimit(rows: seq<Row>, limit: string, limit': string)
    requires LexLess(limit, limit') && SingleMatch(rows, limit)
    ensures SingleMatch(rows, limit')
  {
    forall i, j | 0 <= i < j < |rows| && rows[i].num == rows[j].num && LexLess(limit', rows[i].date)
      ensures !LexLess(limit', rows[j].date)
    {
      LexLessTransitive(limit, limit', rows[i].date);
      if LexLess(limit', rows[j].date) {
        LexLessTransitive(limit, limit', rows[j].date);
      }
    }
  }

  /** After any branch on a row with the sighting's own timestamp, that row carries the sighting's status. */
  lemma SameDateRowAfter(rows: seq<Row>, s: Sighting, k: int)
    requires 0 <= k < |rows| && rows[k].date == s.date
    ensures var rows1 := Step(rows, s, Some(rows[k])).0;
            |rows1| == |rows| && rows1[k].num == rows[k].num && rows1[k].date == s.date && rows1[k].kind == s.kind
  {
    var e := rows[k];
    if s.kind != e.kind && s.kind == Suppr {
      CancelBranch(rows, s, e);
    } else if s.kind != e.kind {
      FlipBranch(rows, s, e);
    } else {
      StepUnchanged(rows, s, e);
    }
  }

  /**
   * Seeing a train again with the same timestamp and status, inside the window,
   * changes nothing and announces nothing, provided the table held one
   * candidate per number and this train's candidate had the same timestamp.
   */
  lemma IdenticalResightingIsQuiet(rows: seq<Row>, obs: Observation, now: DateTime,
                                   rows1: seq<Row>, r1: Result<Notice, RecordError>,
                                   rows2: seq<Row>, r2: Result<Notice, RecordError>)
    requires Valid(now) && Prepare(obs).Success? && LimitText(now).Some?
    requires Recorded(rows, obs, now, rows1, r1) && Recorded(rows1, obs, now, rows2, r2)
    requires SingleMatch(rows, LimitText(now).value) && LexLess(LimitText(now).value, Prepare(obs).value.date)
    requires forall i :: 0 <= i < |rows| && Matches(rows[i], obs.num, LimitText(now).value) ==>
               rows[i].date == Prepare(obs).value.date
    ensures rows2 == rows1 && r2 == Success(Silent)
  {
    var s := Prepare(obs).value;
    var limit := LimitText(now).value;
    PrepareSighting(obs);
    RecordedKeepsSingleMatch(rows, obs, now, rows1, r1);
    RecordedLookup(rows1, obs, now, rows2, r2);
    var existing := RecordedChoice(rows, obs, now, rows1, r1);
    var k := SightingRow(rows, s, limit, existing);
    StepUnchanged(rows1, s, rows1[k]);
  }

  /** After the first sighting, a row inside the window holds its number, timestamp and status. */
  lemma SightingRow(rows: seq<Row>, s: Sighting, limit: string, existing: Option<Row>) returns (k: int)
    requires Lookup(rows, s.num, limit, existing) && LexLess(limit, s.date)
    requires forall i :: 0 <= i < |rows| && Matches(rows[i], s.num, limit) ==> rows[i].date == s.date
    ensures var rows1 := Step(rows, s, existing).0;
            0 <= k < |rows1| && Matches(rows1[k], s.num, limit) && rows1[k].date == s.date && rows1[k].kind == s.kind
  {
    if existing.None? {
      InsertBranch(rows, s);
      k := |rows|;
    } else {
      k :| 0 <= k < |rows| && rows[k] == existing.value;
      SameDateRowAfter(rows, s, k);
    }
  }
}
