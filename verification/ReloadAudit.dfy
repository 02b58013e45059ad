/**
 The correlation in scripts/reload_recovery_audit.py: log lines, trace events and
 durable records are gathered into one record for each reload and session, and
 each record gets a verdict.
 */
module ReloadAudit {
  import opened Text

  // What a pattern group like ([^ ]+) can match.
  type Id = s: string | s != "" witness "x"

  datatype Key = Key(reload: Id, session: Id)

  datatype Kind =
    | KPersisted | KClaimed | KAttached | KDelivered | KMismatch | KNonPending
    | KSnapshot | KQueued | KTuiFlow | KSendHistory | KRunning

  datatype Event = Event(kind: Kind, line: nat, key: Key, role: Option<string>, detail: Option<string>)

  datatype IntentRecord = IntentRecord(
    key: Key,
    role: Option<string>,
    persisted: Option<Event>,
    claimed: Option<Event>,
    attached: seq<Event>,
    delivered: seq<Event>,
    mismatch: seq<Event>,
    nonPending: seq<Event>,
    snapshots: seq<Event>,
    queued: seq<Event>,
    tuiFlows: seq<Event>,
    sendHistory: seq<Event>,
    running: seq<Event>,
    durableStatus: Option<string>,
    durableDeliveredAt: Option<string>)

  type Records = map<Key, IntentRecord>

  function NewRecord(key: Key, role: Option<string>): IntentRecord {
    IntentRecord(key, role, None, None, [], [], [], [], [], [], [], [], [], None, None)
  }

  predicate Truthy(o: Option<string>) {
    o.Some? && o.value != ""
  }

  function Or(a: Option<string>, b: Option<string>): Option<string> {
    if Truthy(a) then a else b
  }

  // A record's role is filled in once.
  function Adopt(role: Option<string>, seen: Option<string>): Option<string> {
    if Truthy(seen) && !Truthy(role) then seen else role
  }

  // ---------- evidence and verdict ----------

  datatype Verdict =
    | OkClientQueued | OkServerAccepted | Pending | SuspectDelivered
    | AttachedNotAccepted | PersistedNotAttached | ObservedOnly

  predicate SaysQueued(e: Event) {
    Truthy(e.detail) && (Occurs(Lower(e.detail.value), "queued") || Occurs(Lower(e.detail.value), "outcome=resumed"))
  }

  predicate SaysAccepted(e: Event) {
    && Truthy(e.detail)
    && (Occurs(e.detail.value, "accepted_by=client_message_accepted")
        || Occurs(e.detail.value, "accepted_by=server_startup_headless"))
  }

  predicate HasClientQueueEvidence(r: IntentRecord) {
    r.queued != [] || exists i :: 0 <= i < |r.tuiFlows| && SaysQueued(r.tuiFlows[i])
  }

  predicate HasServerAcceptanceEvidence(r: IntentRecord) {
    r.delivered != [] || exists i :: 0 <= i < |r.tuiFlows| && SaysAccepted(r.tuiFlows[i])
  }

  function VerdictOf(r: IntentRecord): Verdict {
    var status := if r.durableStatus.Some? then r.durableStatus.value else "";
    if HasClientQueueEvidence(r) then OkClientQueued
    else if HasServerAcceptanceEvidence(r) then OkServerAccepted
    else if status == "pending" || status == "Pending" then Pending
    else if r.claimed.Some? || Lower(status) == "delivered" then SuspectDelivered
    else if r.attached != [] then AttachedNotAccepted
    else if r.persisted.Some? then PersistedNotAttached
    else ObservedOnly
  }

  predicate IsOk(r: IntentRecord) {
    VerdictOf(r).OkClientQueued? || VerdictOf(r).OkServerAccepted?
  }

  /** An event that by itself shows the continuation was queued or accepted. */
  predicate IsOkEvidence(e: Event) {
    e.kind.KQueued? || e.kind.KDelivered? || (e.kind.KTuiFlow? && (SaysQueued(e) || SaysAccepted(e)))
  }

  // ---------- add_event ----------

  function Filed(r: IntentRecord, e: Event): IntentRecord {
    match e.kind
    case KPersisted => r.(persisted := Some(e))
    case KClaimed => r.(claimed := Some(e))
    case KAttached => r.(attached := r.attached + [e])
    case KDelivered => r.(delivered := r.delivered + [e])
    case KMismatch => r.(mismatch := r.mismatch + [e])
    case KNonPending => r.(nonPending := r.nonPending + [e])
    case KSnapshot => r.(snapshots := r.snapshots + [e])
    case KQueued => r.(queued := r.queued + [e])
    case KTuiFlow => r.(tuiFlows := r.tuiFlows + [e])
    case KSendHistory => r.(sendHistory := r.sendHistory + [e])
    case KRunning => r.(running := r.running + [e])
  }

  function RecordFor(records: Records, key: Key, role: Option<string>): IntentRecord {
    if key in records then records[key] else NewRecord(key, role)
  }

  function AddEvent(records: Records, e: Event): Records {
    var record := RecordFor(records, e.key, e.role);
    records[e.key := Filed(record.(role := Adopt(record.role, e.role)), e)]
  }

  function AddAll(records: Records, es: seq<Event>): Records
    decreases |es|
  {
    if es == [] then records else AddAll(AddEvent(records, es[0]), es[1..])
  }

  ghost predicate KeysMatch(records: Records) {
    forall k :: k in records ==> records[k].key == k
  }

  // ---------- parse_logs ----------

  /** A log line by the first pattern it matches; session lines name no reload. */
  datatype LogLine =
    | IdLine(kind: Kind, reload: Id, session: Id, role: Option<string>, detail: Option<string>)
    | SessionLine(kind: Kind, session: Id, detail: Option<string>)
    | OtherLine

  function LatestAfter(latest: map<Id, Id>, l: LogLine): map<Id, Id> {
    if l.IdLine? then latest[l.session := l.reload] else latest
  }

  // The event a line gives rise to, if it can be attributed to a reload.
  function EventOf(latest: map<Id, Id>, l: LogLine, line: nat): seq<Event> {
    match l
    case IdLine(kind, reload, session, role, detail) => [Event(kind, line, Key(reload, session), role, detail)]
    case SessionLine(kind, session, detail) =>
      if session in latest then [Event(kind, line, Key(latest[session], session), None, detail)] else []
    case OtherLine => []
  }

  function EventsFrom(latest: map<Id, Id>, ls: seq<LogLine>, line: nat): seq<Event>
    decreases |ls|
  {
    if ls == [] then []
    else EventOf(latest, ls[0], line) + EventsFrom(LatestAfter(latest, ls[0]), ls[1..], line + 1)
  }

  function LogEvents(ls: seq<LogLine>): seq<Event> {
    EventsFrom(map[], ls, 1)
  }

  // ---------- parse_trace_files and merge_durable_records ----------

  datatype TraceLine = TraceLine(
    phase: string, reloadId: Option<string>, stem: string, sessionId: Option<string>,
    acceptedBy: Option<string>, status: Option<string>, role: Option<string>)

  function KindOfPhase(phase: string): Option<Kind> {
    if phase == "intent_attached_to_history" then Some(KAttached)
    else if phase == "intent_delivered" then Some(KDelivered)
    else if phase == "intent_delivery_mismatch" then Some(KMismatch)
    else None
  }

  function TraceDetail(t: TraceLine): string {
    (if Truthy(t.acceptedBy) then "accepted_by=" + t.acceptedBy.value + " " else "")
    + (if Truthy(t.status) then "status=" + t.status.value + " " else "")
    + "phase=" + t.phase
  }

  function TraceEvent(t: TraceLine, line: nat): seq<Event> {
    var reload := if Truthy(t.reloadId) then t.reloadId.value else t.stem;
    if KindOfPhase(t.phase).None? || reload == "" || !Truthy(t.sessionId) then []
    else [Event(KindOfPhase(t.phase).value, line, Key(reload, t.sessionId.value), t.role, Some(TraceDetail(t)))]
  }

  function TraceEvents(ts: seq<TraceLine>, line: nat): seq<Event>
    decreases |ts|
  {
    if ts == [] then [] else TraceEvent(ts[0], line) + TraceEvents(ts[1..], line + 1)
  }

  datatype Durable = Durable(
    reloadId: Option<string>, sessionId: Option<string>, role: Option<string>,
    status: Option<string>, deliveredAt: Option<string>)

  function MergeOne(records: Records, d: Durable): Records {
    if !Truthy(d.reloadId) || !Truthy(d.sessionId) then records
    else
      var key := Key(d.reloadId.value, d.sessionId.value);
      var record := RecordFor(records, key, d.role);
      records[key := record.(
        role := Or(record.role, d.role), durableStatus := d.status, durableDeliveredAt := d.deliveredAt)]
  }

  function MergeAll(records: Records, ds: seq<Durable>): Records
    decreases |ds|
  {
    if ds == [] then records else MergeAll(MergeOne(records, ds[0]), ds[1..])
  }

  /** A session's latest reload always has a record for that session, so session lines attach to an existing one. */
  ghost predicate EverySessionHasRecord(latest: map<Id, Id>, records: Records) {
    forall s: Id :: s in latest ==> Key(latest[s], s) in records
  }

  /** The audit's tables, updated source by source. */
  class Audit {
    var records: Records
    var sessionLatestReload: map<Id, Id>

    constructor ()
      ensures records == map[] && sessionLatestReload == map[]
    {
      records, sessionLatestReload := map[], map[];
    }

    method Add(e: Event)
      modifies `records
      ensures records == AddEvent(old(records), e)
    {
      if e.key !in records {
        records := records[e.key := NewRecord(e.key, e.role)];
      }
      var record := records[e.key];
      if Truthy(e.role) && !Truthy(record.role) {
        record := record.(role := e.role);
      }
      records := records[e.key := Filed(record, e)];
    }

    method ParseLogs(ls: seq<LogLine>)
      requires records == map[] && sessionLatestReload == map[]
      modifies this
      ensures records == AddAll(map[], LogEvents(ls))
      ensures EverySessionHasRecord(sessionLatestReload, records)
    {
      for n := 0 to |ls|
        invariant EverySessionHasRecord(sessionLatestReload, records)
        invariant AddAll(records, EventsFrom(sessionLatestReload, ls[n..], n + 1)) == AddAll(map[], LogEvents(ls))
      {
        var l := ls[n];
        assert ls[n..][0] == l && ls[n..][1..] == ls[n + 1..];
        ghost var rest := EventsFrom(LatestAfter(sessionLatestReload, l), ls[n + 1..], n + 2);
        AddAllConcat(records, EventOf(sessionLatestReload, l, n + 1), rest);
        match l {
          case IdLine(kind, reload, session, role, detail) =>
            sessionLatestReload := sessionLatestReload[session := reload];
            Add(Event(kind, n + 1, Key(reload, session), role, detail));
          case SessionLine(kind, session, detail) =>
            if session in sessionLatestReload {
              Add(Event(kind, n + 1, Key(sessionLatestReload[session], session), None, detail));
            }
          case OtherLine =>
        }
      }
    }

    method ParseTraces(ts: seq<TraceLine>)
      modifies `records
      ensures records == AddAll(old(records), TraceEvents(ts, 1))
    {
      for n := 0 to |ts|
        invariant AddAll(records, TraceEvents(ts[n..], n + 1)) == AddAll(old(records), TraceEvents(ts, 1))
      {
        var t := ts[n];
        assert ts[n..][0] == t && ts[n..][1..] == ts[n + 1..];
        AddAllConcat(records, TraceEvent(t, n + 1), TraceEvents(ts[n + 1..], n + 2));
        var kind := KindOfPhase(t.phase);
        if kind.Some? {
          var reload := if Truthy(t.reloadId) then t.reloadId.value else t.stem;
          if reload != "" && Truthy(t.sessionId) {
            Add(Event(kind.value, n + 1, Key(reload, t.sessionId.value), t.role, Some(TraceDetail(t))));
          }
        }
      }
    }

    method MergeDurableRecords(ds: seq<Durable>)
      modifies `records
      ensures records == MergeAll(old(records), ds)
    {
      for n := 0 to |ds|
        invariant MergeAll(records, ds[n..]) == MergeAll(old(records), ds)
      {
        var d := ds[n];
        assert ds[n..][0] == d && ds[n..][1..] == ds[n + 1..];
        if Truthy(d.reloadId) && Truthy(d.sessionId) {
          var key := Key(d.reloadId.value, d.sessionId.value);
          var record := RecordFor(records, key, d.role);
          records := records[key := record.(
            role := Or(record.role, d.role), durableStatus := d.status, durableDeliveredAt := d.deliveredAt)];
        }
      }
    }
  }

  lemma {:induction false} AddAllConcat(records: Records, a: seq<Event>, b: seq<Event>)
    ensures AddAll(records, a + b) == AddAll(AddAll(records, a), b)
    decreases |a|
  {
    hide AddEvent;
    if a == [] {
      assert a + b == b;
    } else {
      assert (a + b)[0] == a[0] && (a + b)[1..] == a[1..] + b;
      AddAllConcat(AddEvent(records, a[0]), a[1..], b);
    }
  }

  // ---------- verdicts follow the evidence ----------

  lemma OkMeansEvidence(r: IntentRecord)
    ensures IsOk(r) <==> HasClientQueueEvidence(r) || HasServerAcceptanceEvidence(r)
  {
  }

  lemma FiledEvidence(r: IntentRecord, e: Event)
    ensures IsOk(Filed(r, e)) <==> IsOk(r) || IsOkEvidence(e)
  {
    hide SaysQueued, SaysAccepted, IsOk;
    var t := Filed(r, e);
    OkMeansEvidence(r);
    OkMeansEvidence(t);
    if e.kind.KTuiFlow? {
      assert t.tuiFlows[|r.tuiFlows|] == e;
      assert forall i :: 0 <= i < |r.tuiFlows| ==> t.tuiFlows[i] == r.tuiFlows[i];
    }
  }

  ghost predicate Evidenced(es: seq<Event>, key: Key) {
    exists i :: 0 <= i < |es| && es[i].key == key && IsOkEvidence(es[i])
  }

  ghost predicate Mentioned(es: seq<Event>, key: Key) {
    exists i :: 0 <= i < |es| && es[i].key == key
  }

  lemma FirstEvent(es: seq<Event>, key: Key)
    requires es != []
    ensures Mentioned(es, key) <==> es[0].key == key || Mentioned(es[1..], key)
    ensures Evidenced(es, key) <==> (es[0].key == key && IsOkEvidence(es[0])) || Evidenced(es[1..], key)
  {
    hide IsOkEvidence;
    assert forall i :: 0 < i < |es| ==> es[i] == es[1..][i - 1];
    if Mentioned(es[1..], key) {
      var i :| 0 <= i < |es[1..]| && es[1..][i].key == key;
      assert es[i + 1].key == key;
    }
    if Evidenced(es[1..], key) {
      var i :| 0 <= i < |es[1..]| && es[1..][i].key == key && IsOkEvidence(es[1..][i]);
      assert es[i + 1].key == key && IsOkEvidence(es[i + 1]);
    }
  }

  // A record is ok in the table.
  predicate OkIn(records: Records, key: Key) {
    key in records && IsOk(records[key])
  }

  lemma NewRecordIsNotOk(key: Key, role: Option<string>)
    ensures !IsOk(NewRecord(key, role))
  {
  }

  lemma RoleIsNoEvidence(r: IntentRecord, role: Option<string>)
    ensures IsOk(r.(role := role)) <==> IsOk(r)
  {
    hide SaysQueued, SaysAccepted;
  }

  lemma AddEventEvidence(records: Records, e: Event, key: Key)
    requires KeysMatch(records)
    ensures KeysMatch(AddEvent(records, e))
    ensures key in AddEvent(records, e) <==> key in records || e.key == key
    ensures OkIn(AddEvent(records, e), key) <==> OkIn(records, key) || (e.key == key && IsOkEvidence(e))
  {
    hide IsOk, IsOkEvidence;
    var record := RecordFor(records, e.key, e.role);
    NewRecordIsNotOk(e.key, e.role);
    RoleIsNoEvidence(record, Adopt(record.role, e.role));
    FiledEvidence(record.(role := Adopt(record.role, e.role)), e);
  }

  /** For every sequence of events: a record is ok exactly when it was before or one of its events is evidence. */
  lemma {:induction false} OkIffEvidence(records: Records, es: seq<Event>, key: Key)
    requires KeysMatch(records)
    ensures KeysMatch(AddAll(records, es))
    ensures key in AddAll(records, es) <==> key in records || Mentioned(es, key)
    ensures OkIn(AddAll(records, es), key) <==> OkIn(records, key) || Evidenced(es, key)
    decreases |es|
  {
    hide AddEvent, OkIn, IsOkEvidence;
    if es != [] {
      AddEventEvidence(records, es[0], key);
      OkIffEvidence(AddEvent(records, es[0]), es[1..], key);
      FirstEvent(es, key);
    } else {
      assert !Mentioned(es, key) && !Evidenced(es, key);
    }
  }

  lemma {:induction false} DurableIsNoEvidence(records: Records, ds: seq<Durable>, key: Key)
    requires KeysMatch(records)
    ensures KeysMatch(MergeAll(records, ds))
    ensures key in records ==> key in MergeAll(records, ds)
    ensures OkIn(MergeAll(records, ds), key) <==> OkIn(records, key)
    decreases |ds|
  {
    hide IsOk;
    if ds != [] {
      MergeOneIsNoEvidence(records, ds[0], key);
      DurableIsNoEvidence(MergeOne(records, ds[0]), ds[1..], key);
    }
  }

  lemma MergeOneIsNoEvidence(records: Records, d: Durable, key: Key)
    requires KeysMatch(records)
    ensures KeysMatch(MergeOne(records, d)) && (key in records ==> key in MergeOne(records, d))
    ensures OkIn(MergeOne(records, d), key) <==> OkIn(records, key)
  {
    hide SaysQueued, SaysAccepted;
    if Truthy(d.reloadId) && Truthy(d.sessionId) && key == Key(d.reloadId.value, d.sessionId.value) {
      NewRecordIsNotOk(key, d.role);
    }
  }

  // ---------- every event is filed, under its own kind, in order ----------

  function ContentOf(r: IntentRecord, kind: Kind): seq<Event> {
    match kind
    case KPersisted => if r.persisted.Some? then [r.persisted.value] else []
    case KClaimed => if r.claimed.Some? then [r.claimed.value] else []
    case KAttached => r.attached
    case KDelivered => r.delivered
    case KMismatch => r.mismatch
    case KNonPending => r.nonPending
    case KSnapshot => r.snapshots
    case KQueued => r.queued
    case KTuiFlow => r.tuiFlows
    case KSendHistory => r.sendHistory
    case KRunning => r.running
  }

  function FiledUnder(records: Records, key: Key, kind: Kind): seq<Event> {
    if key in records then ContentOf(records[key], kind) else []
  }

  function Select(es: seq<Event>, key: Key, kind: Kind): seq<Event> {
    if es == [] then []
    else (if es[0].key == key && es[0].kind == kind then [es[0]] else []) + Select(es[1..], key, kind)
  }

  // Of persisted and claimed events a record keeps the last one, of all others the whole list.
  function Kept(kind: Kind, earlier: seq<Event>, more: seq<Event>): seq<Event> {
    if more == [] then earlier
    else if kind == KPersisted || kind == KClaimed then [more[|more| - 1]]
    else earlier + more
  }

  lemma FiledContent(r: IntentRecord, e: Event, kind: Kind)
    ensures ContentOf(Filed(r, e), kind) == Kept(kind, ContentOf(r, kind), if e.kind == kind then [e] else [])
  {
  }

  lemma RoleIsNoContent(r: IntentRecord, role: Option<string>, kind: Kind)
    ensures ContentOf(r.(role := role), kind) == ContentOf(r, kind)
    ensures ContentOf(NewRecord(r.key, role), kind) == []
  {
  }

  lemma AddEventFiles(records: Records, e: Event, key: Key, kind: Kind)
    ensures FiledUnder(AddEvent(records, e), key, kind) ==
            Kept(kind, FiledUnder(records, key, kind), if e.key == key && e.kind == kind then [e] else [])
  {
    hide Filed, ContentOf;
    var record := RecordFor(records, e.key, e.role);
    RoleIsNoContent(NewRecord(e.key, e.role), e.role, kind);
    RoleIsNoContent(record, Adopt(record.role, e.role), kind);
    FiledContent(record.(role := Adopt(record.role, e.role)), e, kind);
  }

  lemma KeptTwice(kind: Kind, earlier: seq<Event>, a: seq<Event>, b: seq<Event>)
    ensures Kept(kind, Kept(kind, earlier, a), b) == Kept(kind, earlier, a + b)
  {
    if a == [] {
      assert a + b == b;
    }
    if b == [] {
      assert a + b == a;
    }
    assert earlier + a + b == earlier + (a + b);
  }

  /** A record holds exactly the events of its reload and session, each under its own kind and in order. */
  lemma {:induction false} RecordHoldsItsEvents(records: Records, es: seq<Event>, key: Key, kind: Kind)
    ensures FiledUnder(AddAll(records, es), key, kind) ==
            Kept(kind, FiledUnder(records, key, kind), Select(es, key, kind))
    decreases |es|
  {
    hide AddEvent, FiledUnder, Kept;
    if es == [] {
      KeptNothing(kind, FiledUnder(records, key, kind));
    } else {
      AddEventFiles(records, es[0], key, kind);
      RecordHoldsItsEvents(AddEvent(records, es[0]), es[1..], key, kind);
      KeptTwice(kind, FiledUnder(records, key, kind),
                if es[0].key == key && es[0].kind == kind then [es[0]] else [], Select(es[1..], key, kind));
    }
  }

  lemma KeptNothing(kind: Kind, earlier: seq<Event>)
    ensures Kept(kind, earlier, []) == earlier
  {
  }

  // The whole pipeline of main.
  function AuditOf(ls: seq<LogLine>, ts: seq<TraceLine>, ds: seq<Durable>): Records {
    MergeAll(AddAll(AddAll(map[], LogEvents(ls)), TraceEvents(ts, 1)), ds)
  }

  /**
   In the final report a record is ok exactly when a log line or trace event attributed to it is evidence; durable
   records never count as evidence and never take a verdict back.
   */
  lemma ReportedOkIffEvidence(ls: seq<LogLine>, ts: seq<TraceLine>, ds: seq<Durable>, key: Key)
    ensures KeysMatch(AuditOf(ls, ts, ds))
    ensures OkIn(AuditOf(ls, ts, ds), key) <==> Evidenced(LogEvents(ls), key) || Evidenced(TraceEvents(ts, 1), key)
  {
    hide OkIn, Evidenced, Mentioned, AddAll, MergeAll;
    var none: Records := map[];
    assert !OkIn(none, key) by {
      NothingIsOk(key);
    }
    OkIffEvidence(none, LogEvents(ls), key);
    OkIffEvidence(AddAll(none, LogEvents(ls)), TraceEvents(ts, 1), key);
    DurableIsNoEvidence(AddAll(AddAll(none, LogEvents(ls)), TraceEvents(ts, 1)), ds, key);
  }

  lemma NothingIsOk(key: Key)
    ensures !OkIn(map[], key)
  {
  }

  /** Once ok, always ok: more events and more durable records cannot undo it. */
  lemma OkIsFinal(records: Records, es: seq<Event>, ds: seq<Durable>, key: Key)
    requires KeysMatch(records) && OkIn(records, key)
    ensures OkIn(MergeAll(AddAll(records, es), ds), key)
  {
    hide OkIn, Evidenced, Mentioned, AddAll, MergeAll;
    OkIffEvidence(records, es, key);
    DurableIsNoEvidence(AddAll(records, es), ds, key);
  }

  // ---------- the verdict, from the inputs ----------

  predicate IsFor(d: Durable, key: Key) {
    d.reloadId == Some(key.reload) && d.sessionId == Some(key.session)
  }

  /** The durable record that is merged last into the key's record. */
  function LastDurable(ds: seq<Durable>, key: Key): Option<Durable> {
    if ds == [] then None
    else if LastDurable(ds[1..], key).Some? then LastDurable(ds[1..], key)
    else if IsFor(ds[0], key) then Some(ds[0]) else None
  }

  lemma {:induction false} LastDurableIsLast(ds: seq<Durable>, key: Key, i: nat)
    requires i < |ds| && IsFor(ds[i], key) && forall j :: i < j < |ds| ==> !IsFor(ds[j], key)
    ensures LastDurable(ds, key) == Some(ds[i])
    decreases |ds|
  {
    if i > 0 {
      LastDurableIsLast(ds[1..], key, i - 1);
    } else {
      NoDurable(ds[1..], key);
    }
  }

  lemma {:induction false} NoDurable(ds: seq<Durable>, key: Key)
    ensures LastDurable(ds, key) == None <==> forall i :: 0 <= i < |ds| ==> !IsFor(ds[i], key)
    decreases |ds|
  {
    if ds != [] {
      NoDurable(ds[1..], key);
      assert forall i :: 0 < i < |ds| ==> ds[i] == ds[1..][i - 1];
      assert forall i :: 0 <= i < |ds[1..]| ==> ds[1..][i] == ds[i + 1];
    }
  }

  function StatusIn(records: Records, key: Key): Option<string> {
    if key in records then records[key].durableStatus else None
  }

  function DeliveredAtIn(records: Records, key: Key): Option<string> {
    if key in records then records[key].durableDeliveredAt else None
  }

  lemma MergeOneStatus(records: Records, d: Durable, key: Key)
    ensures DeliveredAtIn(MergeOne(records, d), key) ==
            if IsFor(d, key) then d.deliveredAt else DeliveredAtIn(records, key)
    ensures StatusIn(MergeOne(records, d), key) == if IsFor(d, key) then d.status else StatusIn(records, key)
    ensures key in MergeOne(records, d) <==> key in records || IsFor(d, key)
  {
  }

  /** The durable record read last for a key decides its status and time; records for other keys do not matter. */
  lemma {:induction false} StatusIsThatOfLastDurable(records: Records, ds: seq<Durable>, key: Key)
    ensures DeliveredAtIn(MergeAll(records, ds), key) ==
            match LastDurable(ds, key) case None => DeliveredAtIn(records, key) case Some(d) => d.deliveredAt
    ensures StatusIn(MergeAll(records, ds), key) ==
            match LastDurable(ds, key) case None => StatusIn(records, key) case Some(d) => d.status
    ensures key in MergeAll(records, ds) <==> key in records || LastDurable(ds, key).Some?
    decreases |ds|
  {
    hide MergeOne, StatusIn, DeliveredAtIn, IsFor;
    if ds != [] {
      MergeOneStatus(records, ds[0], key);
      StatusIsThatOfLastDurable(MergeOne(records, ds[0]), ds[1..], key);
    }
  }

  lemma MergeOneFiles(records: Records, d: Durable, key: Key, kind: Kind)
    ensures FiledUnder(MergeOne(records, d), key, kind) == FiledUnder(records, key, kind)
  {
  }

  lemma {:induction false} DurableFilesNothing(records: Records, ds: seq<Durable>, key: Key, kind: Kind)
    ensures FiledUnder(MergeAll(records, ds), key, kind) == FiledUnder(records, key, kind)
    decreases |ds|
  {
    hide MergeOne, FiledUnder;
    if ds != [] {
      MergeOneFiles(records, ds[0], key, kind);
      DurableFilesNothing(MergeOne(records, ds[0]), ds[1..], key, kind);
    }
  }

  lemma {:induction false} EventsSetNoStatus(records: Records, es: seq<Event>, key: Key)
    ensures StatusIn(AddAll(records, es), key) == StatusIn(records, key)
    decreases |es|
  {
    if es != [] {
      EventsSetNoStatus(AddEvent(records, es[0]), es[1..], key);
      assert StatusIn(AddEvent(records, es[0]), key) == StatusIn(records, key);
    }
  }

  // The events of the log and then of the traces, in the order they are filed.
  function AllEvents(ls: seq<LogLine>, ts: seq<TraceLine>): seq<Event> {
    LogEvents(ls) + TraceEvents(ts, 1)
  }

  ghost predicate Has(es: seq<Event>, key: Key, kind: Kind) {
    exists i :: 0 <= i < |es| && es[i].key == key && es[i].kind == kind
  }

  ghost predicate HasFlow(es: seq<Event>, key: Key, says: Event -> bool) {
    exists i :: 0 <= i < |es| && es[i].key == key && es[i].kind == KTuiFlow && says(es[i])
  }

  /** The verdict in terms of what was read: the events filed for the key and the last durable status. */
  ghost function VerdictByInputs(es: seq<Event>, key: Key, durableStatus: Option<string>): Verdict {
    var status := if durableStatus.Some? then durableStatus.value else "";
    if Has(es, key, KQueued) || HasFlow(es, key, SaysQueued) then OkClientQueued
    else if Has(es, key, KDelivered) || HasFlow(es, key, SaysAccepted) then OkServerAccepted
    else if status == "pending" || status == "Pending" then Pending
    else if Has(es, key, KClaimed) || Lower(status) == "delivered" then SuspectDelivered
    else if Has(es, key, KAttached) then AttachedNotAccepted
    else if Has(es, key, KPersisted) then PersistedNotAttached
    else ObservedOnly
  }

  lemma {:induction false} SelectIff(es: seq<Event>, key: Key, kind: Kind, e: Event)
    ensures e in Select(es, key, kind) <==> e in es && e.key == key && e.kind == kind
    decreases |es|
  {
    if es != [] {
      SelectIff(es[1..], key, kind, e);
      assert e in es <==> e == es[0] || e in es[1..];
    }
  }

  lemma SelectSomeIff(es: seq<Event>, key: Key, kind: Kind)
    ensures Select(es, key, kind) != [] <==> Has(es, key, kind)
  {
    hide Select;
    if Select(es, key, kind) != [] {
      SelectIff(es, key, kind, Select(es, key, kind)[0]);
    }
    if i :| 0 <= i < |es| && es[i].key == key && es[i].kind == kind {
      SelectIff(es, key, kind, es[i]);
    }
  }

  lemma SelectFlowIff(es: seq<Event>, key: Key, says: Event -> bool)
    ensures (exists i :: 0 <= i < |Select(es, key, KTuiFlow)| && says(Select(es, key, KTuiFlow)[i])) <==>
            HasFlow(es, key, says)
  {
    hide Select;
    var flows := Select(es, key, KTuiFlow);
    if i :| 0 <= i < |flows| && says(flows[i]) {
      SelectIff(es, key, KTuiFlow, flows[i]);
    }
    if i :| 0 <= i < |es| && es[i].key == key && es[i].kind == KTuiFlow && says(es[i]) {
      SelectIff(es, key, KTuiFlow, es[i]);
      var j :| 0 <= j < |flows| && flows[j] == es[i];
    }
  }

  // What the final record of a key holds under a kind.
  lemma FinalContent(ls: seq<LogLine>, ts: seq<TraceLine>, ds: seq<Durable>, key: Key, kind: Kind)
    requires key in AuditOf(ls, ts, ds)
    ensures ContentOf(AuditOf(ls, ts, ds)[key], kind) == Kept(kind, [], Select(AllEvents(ls, ts), key, kind))
  {
    hide AddAll, MergeAll, Select, Kept, ContentOf, LogEvents, TraceEvents;
    var none: Records := map[];
    AddAllConcat(none, LogEvents(ls), TraceEvents(ts, 1));
    DurableFilesNothing(AddAll(none, AllEvents(ls, ts)), ds, key, kind);
    RecordHoldsItsEvents(none, AllEvents(ls, ts), key, kind);
  }

  lemma FinalStatus(ls: seq<LogLine>, ts: seq<TraceLine>, ds: seq<Durable>, key: Key)
    requires key in AuditOf(ls, ts, ds)
    ensures AuditOf(ls, ts, ds)[key].durableStatus ==
            match LastDurable(ds, key) case None => None case Some(d) => d.status
  {
    hide AddAll, MergeAll, LogEvents, TraceEvents, LastDurable;
    var none: Records := map[];
    AddAllConcat(none, LogEvents(ls), TraceEvents(ts, 1));
    EventsSetNoStatus(none, AllEvents(ls, ts), key);
    StatusIsThatOfLastDurable(AddAll(none, AllEvents(ls, ts)), ds, key);
  }

  lemma FinalHas(ls: seq<LogLine>, ts: seq<TraceLine>, ds: seq<Durable>, key: Key, kind: Kind)
    requires key in AuditOf(ls, ts, ds)
    ensures ContentOf(AuditOf(ls, ts, ds)[key], kind) != [] <==> Has(AllEvents(ls, ts), key, kind)
  {
    hide AuditOf, AllEvents, Select, ContentOf, Has;
    FinalContent(ls, ts, ds, key, kind);
    SelectSomeIff(AllEvents(ls, ts), key, kind);
  }

  lemma FinalFlow(ls: seq<LogLine>, ts: seq<TraceLine>, ds: seq<Durable>, key: Key, says: Event -> bool)
    requires key in AuditOf(ls, ts, ds)
    ensures var flows := AuditOf(ls, ts, ds)[key].tuiFlows;
            (exists i :: 0 <= i < |flows| && says(flows[i])) <==> HasFlow(AllEvents(ls, ts), key, says)
  {
    hide AuditOf, AllEvents, Select, HasFlow;
    FinalContent(ls, ts, ds, key, KTuiFlow);
    assert [] + Select(AllEvents(ls, ts), key, KTuiFlow) == Select(AllEvents(ls, ts), key, KTuiFlow);
    SelectFlowIff(AllEvents(ls, ts), key, says);
  }

  /** For every log, trace and recovery directory, each of the seven verdicts is given exactly for what was read. */
  lemma ReportedVerdict(ls: seq<LogLine>, ts: seq<TraceLine>, ds: seq<Durable>, key: Key)
    requires key in AuditOf(ls, ts, ds)
    ensures VerdictOf(AuditOf(ls, ts, ds)[key]) ==
            VerdictByInputs(AllEvents(ls, ts), key,
                            match LastDurable(ds, key) case None => None case Some(d) => d.status)
  {
    hide AuditOf, AllEvents, Has, HasFlow, LastDurable, SaysQueued, SaysAccepted, Lower;
    FinalStatus(ls, ts, ds, key);
    FinalHas(ls, ts, ds, key, KQueued);
    FinalHas(ls, ts, ds, key, KDelivered);
    FinalHas(ls, ts, ds, key, KClaimed);
    FinalHas(ls, ts, ds, key, KAttached);
    FinalHas(ls, ts, ds, key, KPersisted);
    FinalFlow(ls, ts, ds, key, SaysQueued);
    FinalFlow(ls, ts, ds, key, SaysAccepted);
  }

  /**
   A reload and session whose log has a claimed line, and nothing in log and traces that is evidence, is reported. It
   is flagged, as the script's documentation says it always is, exactly when the durable record read last for it does
   not call the intent pending.
   */
  lemma ClaimedWithoutEvidenceIsSuspectIff(ls: seq<LogLine>, ts: seq<TraceLine>, ds: seq<Durable>, key: Key)
    requires Has(AllEvents(ls, ts), key, KClaimed) && !Evidenced(AllEvents(ls, ts), key)
    ensures key in AuditOf(ls, ts, ds)
    ensures VerdictOf(AuditOf(ls, ts, ds)[key]) == SuspectDelivered <==>
            !(LastDurable(ds, key).Some? && SaysPending(LastDurable(ds, key).value.status))
  {
    hide AddAll, MergeAll, AllEvents, LogEvents, TraceEvents, LastDurable, SaysQueued, SaysAccepted, Lower, VerdictOf;
    EventsMakeRecord(ls, ts, ds, key);
    ReportedVerdict(ls, ts, ds, key);
    NoEvidence(AllEvents(ls, ts), key);
  }

  predicate SaysPending(status: Option<string>) {
    status.Some? && (status.value == "pending" || status.value == "Pending")
  }

  lemma EventsMakeRecord(ls: seq<LogLine>, ts: seq<TraceLine>, ds: seq<Durable>, key: Key)
    requires Mentioned(AllEvents(ls, ts), key)
    ensures key in AuditOf(ls, ts, ds)
  {
    hide AddAll, MergeAll, LogEvents, TraceEvents, Mentioned, Evidenced, OkIn;
    var none: Records := map[];
    AddAllConcat(none, LogEvents(ls), TraceEvents(ts, 1));
    OkIffEvidence(none, AllEvents(ls, ts), key);
    DurableIsNoEvidence(AddAll(none, AllEvents(ls, ts)), ds, key);
  }

  lemma NoEvidence(es: seq<Event>, key: Key)
    requires !Evidenced(es, key)
    ensures !Has(es, key, KQueued) && !Has(es, key, KDelivered)
    ensures !HasFlow(es, key, SaysQueued) && !HasFlow(es, key, SaysAccepted)
  {
    hide SaysQueued, SaysAccepted;
  }

  /** One input that is not flagged: a claimed line in the log, and a durable record that still says pending. */
  lemma ClaimedButPendingIsNotFlagged(key: Key, role: Option<string>)
    ensures var ls := [IdLine(KClaimed, key.reload, key.session, role, None)];
            var ds := [Durable(Some(key.reload), Some(key.session), role, Some("pending"), None)];
            key in AuditOf(ls, [], ds) && VerdictOf(AuditOf(ls, [], ds)[key]) == Pending
  {
    var ls := [IdLine(KClaimed, key.reload, key.session, role, None)];
    var ds := [Durable(Some(key.reload), Some(key.session), role, Some("pending"), None)];
    var e := Event(KClaimed, 1, key, role, None);
    assert AllEvents(ls, []) == [e] by {
      assert ls[1..] == [] && EventsFrom(map[], ls, 1) == [e] + EventsFrom(LatestAfter(map[], ls[0]), [], 2);
    }
    hide AuditOf, AllEvents, Lower, SaysQueued, SaysAccepted, VerdictOf;
    assert [e][0].key == key;
    EventsMakeRecord(ls, [], ds, key);
    ReportedVerdict(ls, [], ds, key);
    NoEvidence([e], key);
    LastDurableIsLast(ds, key, 0);
  }

  // ---------- what counts as evidence ----------

  // word occurs in the text with letters of either case.
  predicate MentionsAt(text: string, word: string, i: int) {
    0 <= i && i + |word| <= |text| && EqualUpToCase(text[i..i + |word|], word)
  }

  lemma LowerOfPart(text: string, i: nat, j: nat)
    requires i <= j <= |text|
    ensures Lower(text)[i..j] == Lower(text[i..j])
  {
    hide Lower;
  }

  lemma LowerOccursIff(text: string, word: string)
    requires forall i :: 0 <= i < |word| ==> !('A' <= word[i] <= 'Z')
    ensures Occurs(Lower(text), word) <==> exists i :: MentionsAt(text, word, i)
  {
    hide Lower, EqualUpToCase;
    forall i: nat | i + |word| <= |text|
      ensures OccursAt(Lower(text), word, i) <==> MentionsAt(text, word, i)
    {
      LowerOfPart(text, i, i + |word|);
      LowerEqualIff(text[i..i + |word|], word);
      LowerKeeps(word);
    }
    if i :| MentionsAt(text, word, i) {
      assert OccursAt(Lower(text), word, i);
    }
  }

  /** A flow event says queued exactly when its detail mentions one of two words, in letters of either case. */
  lemma SaysQueuedIff(e: Event)
    ensures SaysQueued(e) <==>
            && e.detail.Some?
            && ((exists i :: MentionsAt(e.detail.value, "queued", i))
                || exists i :: MentionsAt(e.detail.value, "outcome=resumed", i))
  {
    hide MentionsAt, Occurs, Lower;
    if e.detail.Some? {
      LowerOccursIff(e.detail.value, "queued");
      LowerOccursIff(e.detail.value, "outcome=resumed");
      if e.detail.value == "" {
        NothingMentions("queued");
        NothingMentions("outcome=resumed");
      }
    }
  }

  lemma NothingMentions(word: string)
    requires word != ""
    ensures forall i :: !MentionsAt("", word, i)
    ensures !Occurs("", word)
  {
  }

  /** It says accepted exactly when its detail has one of two texts, letter for letter. */
  lemma SaysAcceptedIff(e: Event)
    ensures SaysAccepted(e) <==>
            && e.detail.Some?
            && ((exists i :: ReadsAt(e.detail.value, "accepted_by=client_message_accepted", i))
                || exists i :: ReadsAt(e.detail.value, "accepted_by=server_startup_headless", i))
  {
    hide Occurs, ReadsAt;
    if e.detail.Some? {
      OccursIff(e.detail.value, "accepted_by=client_message_accepted");
      OccursIff(e.detail.value, "accepted_by=server_startup_headless");
      if e.detail.value == "" {
        NothingMentions("accepted_by=client_message_accepted");
        NothingMentions("accepted_by=server_startup_headless");
      }
    }
  }

  // ---------- what a trace says ----------

  // The trace line is about the key, by its own reload id or, where it has none, by the name of its file.
  predicate TraceFor(t: TraceLine, key: Key) {
    && t.sessionId == Some(key.session)
    && (t.reloadId == Some(key.reload) || ((t.reloadId == None || t.reloadId == Some("")) && t.stem == key.reload))
  }

  lemma HasConcat(a: seq<Event>, b: seq<Event>, key: Key, kind: Kind)
    ensures Has(a + b, key, kind) <==> Has(a, key, kind) || Has(b, key, kind)
  {
    if i :| 0 <= i < |b| && b[i].key == key && b[i].kind == kind {
      assert (a + b)[|a| + i] == b[i];
    }
    if i :| 0 <= i < |a| && a[i].key == key && a[i].kind == kind {
      assert (a + b)[i] == a[i];
    }
  }

  lemma OneTraceHas(t: TraceLine, line: nat, key: Key, kind: Kind)
    ensures Has(TraceEvent(t, line), key, kind) <==> KindOfPhase(t.phase) == Some(kind) && TraceFor(t, key)
  {
    hide KindOfPhase, TraceDetail;
    var es := TraceEvent(t, line);
    if es != [] {
      assert es[0] in es;
    }
  }

  /** The event of a trace line carries the line's number, role and detail. */
  lemma TraceEventIs(t: TraceLine, line: nat, key: Key)
    requires TraceFor(t, key)
    ensures t.phase == "intent_attached_to_history" ==>
              TraceEvent(t, line) == [Event(KAttached, line, key, t.role, Some(TraceDetail(t)))]
    ensures t.phase == "intent_delivered" ==>
              TraceEvent(t, line) == [Event(KDelivered, line, key, t.role, Some(TraceDetail(t)))]
    ensures t.phase == "intent_delivery_mismatch" ==>
              TraceEvent(t, line) == [Event(KMismatch, line, key, t.role, Some(TraceDetail(t)))]
  {
    hide TraceDetail;
    PhasesOfKinds();
  }

  lemma {:induction false} TraceEventsHave(ts: seq<TraceLine>, line: nat, key: Key, kind: Kind)
    ensures Has(TraceEvents(ts, line), key, kind) <==>
            exists i :: 0 <= i < |ts| && KindOfPhase(ts[i].phase) == Some(kind) && TraceFor(ts[i], key)
    decreases |ts|
  {
    hide KindOfPhase, TraceFor, TraceEvent, Has;
    if ts == [] {
      NothingHas(key, kind);
    } else {
      var rest := ts[1..];
      HasConcat(TraceEvent(ts[0], line), TraceEvents(rest, line + 1), key, kind);
      OneTraceHas(ts[0], line, key, kind);
      TraceEventsHave(rest, line + 1, key, kind);
      if i :| 0 <= i < |rest| && KindOfPhase(rest[i].phase) == Some(kind) && TraceFor(rest[i], key) {
        assert ts[i + 1] == rest[i];
      }
      if i :| 0 <= i < |ts| && KindOfPhase(ts[i].phase) == Some(kind) && TraceFor(ts[i], key) {
        assert i > 0 ==> rest[i - 1] == ts[i];
      }
    }
  }

  lemma NothingHas(key: Key, kind: Kind)
    ensures !Has([], key, kind)
  {
  }

  ghost predicate PhaseSeen(ts: seq<TraceLine>, key: Key, phase: string) {
    exists i :: 0 <= i < |ts| && ts[i].phase == phase && TraceFor(ts[i], key)
  }

  /** Over any trace lines: three phases leave an event, each of its own kind, and no other phase leaves one. */
  lemma TraceHasIff(ts: seq<TraceLine>, key: Key, kind: Kind)
    ensures Has(TraceEvents(ts, 1), key, KAttached) <==> PhaseSeen(ts, key, "intent_attached_to_history")
    ensures Has(TraceEvents(ts, 1), key, KDelivered) <==> PhaseSeen(ts, key, "intent_delivered")
    ensures Has(TraceEvents(ts, 1), key, KMismatch) <==> PhaseSeen(ts, key, "intent_delivery_mismatch")
    ensures !kind.KAttached? && !kind.KDelivered? && !kind.KMismatch? ==> !Has(TraceEvents(ts, 1), key, kind)
  {
    hide TraceFor, TraceEvents, Has;
    TraceEventsHave(ts, 1, key, KAttached);
    TraceEventsHave(ts, 1, key, KDelivered);
    TraceEventsHave(ts, 1, key, KMismatch);
    TraceEventsHave(ts, 1, key, kind);
    PhasesOfKinds();
    hide KindOfPhase;
  }

  lemma PhasesOfKinds()
    ensures forall phase ::
              && (KindOfPhase(phase) == Some(KAttached) <==> phase == "intent_attached_to_history")
              && (KindOfPhase(phase) == Some(KDelivered) <==> phase == "intent_delivered")
              && (KindOfPhase(phase) == Some(KMismatch) <==> phase == "intent_delivery_mismatch")
              && (KindOfPhase(phase).Some? ==>
                    KindOfPhase(phase) in {Some(KAttached), Some(KDelivered), Some(KMismatch)})
  {
    assert |"intent_attached_to_history"| == 26 && |"intent_delivered"| == 16 && |"intent_delivery_mismatch"| == 24;
  }

  /** The detail of a trace event: who accepted and which status, where given, and the phase. */
  lemma TraceDetailIs(t: TraceLine, who: string, status: string)
    requires who != "" && status != ""
    ensures TraceDetail(t.(acceptedBy := Some(who), status := Some(status))) ==
            "accepted_by=" + who + " status=" + status + " phase=" + t.phase
    ensures TraceDetail(t.(acceptedBy := Some(who), status := None)) == "accepted_by=" + who + " phase=" + t.phase
    ensures TraceDetail(t.(acceptedBy := None, status := Some(status))) == "status=" + status + " phase=" + t.phase
    ensures TraceDetail(t.(acceptedBy := None, status := None)) == "phase=" + t.phase
    ensures TraceDetail(t) == TraceDetail(t.(acceptedBy := if t.acceptedBy == Some("") then None else t.acceptedBy,
                                             status := if t.status == Some("") then None else t.status))
  {
    assert "accepted_by=" + who + " " + ("status=" + status + " ") + "phase=" + t.phase ==
           "accepted_by=" + who + " status=" + status + " phase=" + t.phase;
    assert "accepted_by=" + who + " " + "" + "phase=" + t.phase == "accepted_by=" + who + " phase=" + t.phase;
    assert "" + ("status=" + status + " ") + "phase=" + t.phase == "status=" + status + " phase=" + t.phase;
    assert "" + "" + "phase=" + t.phase == "phase=" + t.phase;
  }

  // ---------- the verdict on one line ----------

  lemma NoLogLines(ts: seq<TraceLine>)
    ensures AllEvents([], ts) == TraceEvents(ts, 1)
  {
    assert LogEvents([]) == [];
    assert [] + TraceEvents(ts, 1) == TraceEvents(ts, 1);
  }

  lemma MentionedByKind(es: seq<Event>, key: Key, kind: Kind)
    requires Has(es, key, kind)
    ensures Mentioned(es, key)
  {
  }

  lemma OnlyOf(t: TraceLine, key: Key, phase: string)
    requires TraceFor(t, key)
    ensures PhaseSeen([t], key, phase) <==> t.phase == phase
  {
    hide TraceFor;
    assert [t][0] == t;
  }

  lemma FlowIsKind(es: seq<Event>, key: Key, says: Event -> bool)
    requires !Has(es, key, KTuiFlow)
    ensures !HasFlow(es, key, says)
  {
  }

  /** A trace with one line: accepted, attached only, merely observed, or not reported at all, by its phase. */
  lemma OneTraceVerdict(t: TraceLine, key: Key)
    requires TraceFor(t, key)
    ensures t.phase == "intent_delivered" ==>
              key in AuditOf([], [t], []) && VerdictOf(AuditOf([], [t], [])[key]) == OkServerAccepted
    ensures t.phase == "intent_attached_to_history" ==>
              key in AuditOf([], [t], []) && VerdictOf(AuditOf([], [t], [])[key]) == AttachedNotAccepted
    ensures t.phase == "intent_delivery_mismatch" ==>
              key in AuditOf([], [t], []) && VerdictOf(AuditOf([], [t], [])[key]) == ObservedOnly
    ensures t.phase !in {"intent_delivered", "intent_attached_to_history", "intent_delivery_mismatch"} ==>
              key !in AuditOf([], [t], [])
  {
    hide *;
    var es := TraceEvents([t], 1);
    NoLogLines([t]);
    PhasesDiffer();
    OnlyOf(t, key, "intent_delivered");
    OnlyOf(t, key, "intent_attached_to_history");
    OnlyOf(t, key, "intent_delivery_mismatch");
    forall kind
      ensures Has(es, key, kind) <==>
              || (kind == KDelivered && t.phase == "intent_delivered")
              || (kind == KAttached && t.phase == "intent_attached_to_history")
              || (kind == KMismatch && t.phase == "intent_delivery_mismatch")
    {
      TraceHasIff([t], key, kind);
    }
    assert Has(es, key, KDelivered) <==> t.phase == "intent_delivered";
    assert Has(es, key, KAttached) <==> t.phase == "intent_attached_to_history";
    assert Has(es, key, KMismatch) <==> t.phase == "intent_delivery_mismatch";
    if kind :| Has(es, key, kind) {
      MentionedByKind(es, key, kind);
      EventsMakeRecord([], [t], [], key);
      VerdictByKinds([], [t], key);
    } else {
      NoKindNoRecord([], [t], key);
    }
  }

  lemma PhasesDiffer()
    ensures "intent_delivered" != "intent_attached_to_history"
    ensures "intent_attached_to_history" != "intent_delivery_mismatch"
    ensures "intent_delivered" != "intent_delivery_mismatch"
  {
    assert |"intent_attached_to_history"| == 26 && |"intent_delivered"| == 16 && |"intent_delivery_mismatch"| == 24;
  }

  // Without durable records and flow events the kinds of the events decide.
  lemma VerdictByKinds(ls: seq<LogLine>, ts: seq<TraceLine>, key: Key)
    requires key in AuditOf(ls, ts, []) && !Has(AllEvents(ls, ts), key, KTuiFlow)
    ensures var es := AllEvents(ls, ts);
            VerdictOf(AuditOf(ls, ts, [])[key]) ==
              if Has(es, key, KQueued) then OkClientQueued
              else if Has(es, key, KDelivered) then OkServerAccepted
              else if Has(es, key, KClaimed) then SuspectDelivered
              else if Has(es, key, KAttached) then AttachedNotAccepted
              else if Has(es, key, KPersisted) then PersistedNotAttached
              else ObservedOnly
  {
    hide AuditOf, AllEvents, Has, HasFlow, VerdictOf, SaysQueued, SaysAccepted;
    ReportedVerdict(ls, ts, [], key);
    FlowIsKind(AllEvents(ls, ts), key, SaysQueued);
    FlowIsKind(AllEvents(ls, ts), key, SaysAccepted);
    LowerKeeps("");
  }

  lemma NoKindNoRecord(ls: seq<LogLine>, ts: seq<TraceLine>, key: Key)
    requires forall kind :: !Has(AllEvents(ls, ts), key, kind)
    ensures key !in AuditOf(ls, ts, [])
  {
    hide AddAll, LogEvents, TraceEvents, Mentioned, Evidenced, OkIn, AllEvents, Has;
    var none: Records := map[];
    AddAllConcat(none, LogEvents(ls), TraceEvents(ts, 1));
    AllEventsAre(ls, ts);
    OkIffEvidence(none, AllEvents(ls, ts), key);
    NoKindNotMentioned(AllEvents(ls, ts), key);
  }

  lemma AllEventsAre(ls: seq<LogLine>, ts: seq<TraceLine>)
    ensures AllEvents(ls, ts) == LogEvents(ls) + TraceEvents(ts, 1)
  {
  }

  lemma NoKindNotMentioned(es: seq<Event>, key: Key)
    requires forall kind :: !Has(es, key, kind)
    ensures !Mentioned(es, key)
  {
    if i :| 0 <= i < |es| && es[i].key == key {
      assert Has(es, key, es[i].kind);
    }
  }

  /** A log with one line that names a reload and a session: what each kind of line alone is taken to show. */
  lemma OneLineVerdict(kind: Kind, key: Key, role: Option<string>, detail: Option<string>)
    requires kind != KTuiFlow
    ensures var ls := [IdLine(kind, key.reload, key.session, role, detail)];
            key in AuditOf(ls, [], []) &&
            VerdictOf(AuditOf(ls, [], [])[key]) ==
              match kind
              case KQueued => OkClientQueued
              case KDelivered => OkServerAccepted
              case KClaimed => SuspectDelivered
              case KAttached => AttachedNotAccepted
              case KPersisted => PersistedNotAttached
              case _ => ObservedOnly
  {
    hide *;
    var ls := [IdLine(kind, key.reload, key.session, role, detail)];
    OneLineEvent(kind, key, role, detail);
    var e := Event(kind, 1, key, role, detail);
    forall k
      ensures Has([e], key, k) <==> k == kind
    {
      OneEventHas(e, k);
    }
    MentionedByKind([e], key, kind);
    EventsMakeRecord(ls, [], [], key);
    VerdictByKinds(ls, [], key);
  }

  lemma OneEventHas(e: Event, kind: Kind)
    ensures Has([e], e.key, kind) <==> kind == e.kind
  {
    assert [e][0] == e;
  }

  lemma OneLineEvent(kind: Kind, key: Key, role: Option<string>, detail: Option<string>)
    ensures AllEvents([IdLine(kind, key.reload, key.session, role, detail)], []) == [Event(kind, 1, key, role, detail)]
  {
    var ls := [IdLine(kind, key.reload, key.session, role, detail)];
    var e := Event(kind, 1, key, role, detail);
    assert ls[1..] == [] && EventsFrom(map[], ls, 1) == [e] + EventsFrom(LatestAfter(map[], ls[0]), [], 2);
  }

  // ---------- the role ----------

  // The roles given for a key that are not empty, in order.
  function RolesGiven(es: seq<Event>, key: Key): seq<string> {
    if es == [] then []
    else (if es[0].key == key && Truthy(es[0].role) then [es[0].role.value] else []) + RolesGiven(es[1..], key)
  }

  function DurableRoles(ds: seq<Durable>, key: Key): seq<string> {
    if ds == [] then []
    else (if IsFor(ds[0], key) && Truthy(ds[0].role) then [ds[0].role.value] else []) + DurableRoles(ds[1..], key)
  }

  // The record's role if it has one.
  function RoleIn(records: Records, key: Key): seq<string> {
    if key in records && Truthy(records[key].role) then [records[key].role.value] else []
  }

  function FirstOf(roles: seq<string>): seq<string> {
    if roles == [] then [] else [roles[0]]
  }

  lemma FiledRole(r: IntentRecord, e: Event)
    ensures Filed(r, e).role == r.role
  {
  }

  lemma AddEventRole(records: Records, e: Event, key: Key)
    ensures RoleIn(AddEvent(records, e), key) ==
            FirstOf(RoleIn(records, key) + if e.key == key && Truthy(e.role) then [e.role.value] else [])
    ensures e.key !in records ==> AddEvent(records, e)[e.key].role == e.role
  {
    hide Filed;
    var record := RecordFor(records, e.key, e.role);
    FiledRole(record.(role := Adopt(record.role, e.role)), e);
  }

  lemma FirstOfFirst(a: seq<string>, b: seq<string>, c: seq<string>)
    ensures FirstOf(FirstOf(a + b) + c) == FirstOf(a + (b + c))
  {
    assert a + (b + c) == a + b + c;
    if a + b != [] {
      assert (a + b + c)[0] == (a + b)[0] == (FirstOf(a + b) + c)[0];
    } else {
      assert FirstOf(a + b) + c == c && a + b + c == c;
    }
  }

  lemma {:induction false} AddAllRole(records: Records, es: seq<Event>, key: Key)
    ensures RoleIn(AddAll(records, es), key) == FirstOf(RoleIn(records, key) + RolesGiven(es, key))
    decreases |es|
  {
    hide AddEvent, RoleIn, FirstOf;
    if es == [] {
      OneRoleAtMost(records, key);
    } else {
      AddEventRole(records, es[0], key);
      AddAllRole(AddEvent(records, es[0]), es[1..], key);
      FirstOfFirst(RoleIn(records, key), if es[0].key == key && Truthy(es[0].role) then [es[0].role.value] else [],
                   RolesGiven(es[1..], key));
    }
  }

  lemma OneRoleAtMost(records: Records, key: Key)
    ensures RoleIn(records, key) == FirstOf(RoleIn(records, key) + [])
  {
    assert RoleIn(records, key) + [] == RoleIn(records, key);
  }

  lemma MergeOneRole(records: Records, d: Durable, key: Key)
    ensures RoleIn(MergeOne(records, d), key) ==
            FirstOf(RoleIn(records, key) + if IsFor(d, key) && Truthy(d.role) then [d.role.value] else [])
  {
  }

  lemma {:induction false} MergeAllRole(records: Records, ds: seq<Durable>, key: Key)
    ensures RoleIn(MergeAll(records, ds), key) == FirstOf(RoleIn(records, key) + DurableRoles(ds, key))
    decreases |ds|
  {
    hide MergeOne, RoleIn, FirstOf, IsFor;
    if ds == [] {
      OneRoleAtMost(records, key);
    } else {
      MergeOneRole(records, ds[0], key);
      MergeAllRole(MergeOne(records, ds[0]), ds[1..], key);
      FirstOfFirst(RoleIn(records, key), if IsFor(ds[0], key) && Truthy(ds[0].role) then [ds[0].role.value] else [],
                   DurableRoles(ds[1..], key));
    }
  }

  /** The reported role is the first one given: by the log lines, then the traces, then the durable records. */
  lemma ReportedRoleIsFirst(ls: seq<LogLine>, ts: seq<TraceLine>, ds: seq<Durable>, key: Key)
    ensures RoleIn(AuditOf(ls, ts, ds), key) ==
            FirstOf(RolesGiven(AllEvents(ls, ts), key) + DurableRoles(ds, key))
  {
    hide AddAll, MergeAll, LogEvents, TraceEvents, RolesGiven, DurableRoles, FirstOf;
    var none: Records := map[];
    AddAllConcat(none, LogEvents(ls), TraceEvents(ts, 1));
    AddAllRole(none, AllEvents(ls, ts), key);
    MergeAllRole(AddAll(none, AllEvents(ls, ts)), ds, key);
    assert RoleIn(none, key) == [];
    FirstOfFirst([], RolesGiven(AllEvents(ls, ts), key), DurableRoles(ds, key));
    assert [] + RolesGiven(AllEvents(ls, ts), key) == RolesGiven(AllEvents(ls, ts), key);
    assert [] + (RolesGiven(AllEvents(ls, ts), key) + DurableRoles(ds, key)) ==
           RolesGiven(AllEvents(ls, ts), key) + DurableRoles(ds, key);
  }

  // ---------- which reload a session line belongs to ----------

  /** The reload on the last line before the k-th that names one for the session. */
  function LastReload(ls: seq<LogLine>, k: nat, session: Id): Option<Id>
    requires k <= |ls|
  {
    if k == 0 then None
    else if ls[k - 1].IdLine? && ls[k - 1].session == session then Some(ls[k - 1].reload)
    else LastReload(ls, k - 1, session)
  }

  // The key that a line contributes to, by that rule.
  function KeyOfLine(ls: seq<LogLine>, k: nat): Option<Key>
    requires k < |ls|
  {
    match ls[k]
    case IdLine(_, reload, session, _, _) => Some(Key(reload, session))
    case SessionLine(_, session, _) =>
      (match LastReload(ls, k, session)
       case None => None
       case Some(reload) => Some(Key(reload, session)))
    case OtherLine => None
  }

  ghost predicate Tracks(latest: map<Id, Id>, ls: seq<LogLine>, k: nat)
    requires k <= |ls|
  {
    forall s: Id {:trigger s in latest} ::
      LastReload(ls, k, s) == if s in latest then Some(latest[s]) else None
  }

  lemma TracksNext(latest: map<Id, Id>, ls: seq<LogLine>, k: nat)
    requires k < |ls| && Tracks(latest, ls, k)
    ensures Tracks(LatestAfter(latest, ls[k]), ls, k + 1)
    ensures EventOf(latest, ls[k], k + 1) == EventAt(ls, k)
  {
  }

  // The event of the k-th line, read off the lines before it.
  function EventAt(ls: seq<LogLine>, k: nat): seq<Event>
    requires k < |ls|
  {
    match KeyOfLine(ls, k)
    case None => []
    case Some(key) =>
      if ls[k].IdLine? then [Event(ls[k].kind, k + 1, key, ls[k].role, ls[k].detail)]
      else [Event(ls[k].kind, k + 1, key, None, ls[k].detail)]
  }

  function EventsAt(ls: seq<LogLine>, k: nat): seq<Event>
    requires k <= |ls|
    decreases |ls| - k
  {
    if k == |ls| then [] else EventAt(ls, k) + EventsAt(ls, k + 1)
  }

  lemma {:induction false} EventsFromIsEventsAt(latest: map<Id, Id>, ls: seq<LogLine>, k: nat)
    requires k <= |ls| && Tracks(latest, ls, k)
    ensures EventsFrom(latest, ls[k..], k + 1) == EventsAt(ls, k)
    decreases |ls| - k
  {
    hide EventOf, EventAt, LatestAfter, Tracks;
    if k < |ls| {
      assert ls[k..][0] == ls[k] && ls[k..][1..] == ls[k + 1..];
      TracksNext(latest, ls, k);
      EventsFromIsEventsAt(LatestAfter(latest, ls[k]), ls, k + 1);
    }
  }

  /** A session line is filed under the reload that the last line naming one for its session gave, and nowhere else. */
  lemma LogEventsByLastReload(ls: seq<LogLine>)
    ensures LogEvents(ls) == EventsAt(ls, 0)
  {
    assert Tracks(map[], ls, 0);
    assert ls[0..] == ls;
    EventsFromIsEventsAt(map[], ls, 0);
  }

  lemma {:induction false} LastReloadIsNamed(ls: seq<LogLine>, k: nat, session: Id) returns (i: nat)
    requires k <= |ls| && LastReload(ls, k, session).Some?
    ensures i < k && ls[i].IdLine? && ls[i].session == session && Some(ls[i].reload) == LastReload(ls, k, session)
    decreases k
  {
    if ls[k - 1].IdLine? && ls[k - 1].session == session {
      i := k - 1;
    } else {
      i := LastReloadIsNamed(ls, k - 1, session);
    }
  }

  ghost predicate NamedFrom(ls: seq<LogLine>, k: nat, key: Key) {
    exists i :: k <= i < |ls| && ls[i].IdLine? && Key(ls[i].reload, ls[i].session) == key
  }

  lemma KeyOfEventAt(ls: seq<LogLine>, k: nat)
    requires k < |ls|
    ensures EventAt(ls, k) == [] <==> KeyOfLine(ls, k) == None
    ensures EventAt(ls, k) != [] ==> |EventAt(ls, k)| == 1 && KeyOfLine(ls, k) == Some(EventAt(ls, k)[0].key)
  {
    hide KeyOfLine;
  }

  lemma {:induction false} EventsMentionKeyOfLine(ls: seq<LogLine>, k: nat, key: Key)
    requires k <= |ls|
    ensures Mentioned(EventsAt(ls, k), key) <==> exists i :: k <= i < |ls| && KeyOfLine(ls, i) == Some(key)
    decreases |ls| - k
  {
    hide KeyOfLine, EventAt, Mentioned, Evidenced;
    if k < |ls| {
      var rest := EventsAt(ls, k + 1);
      EventsMentionKeyOfLine(ls, k + 1, key);
      KeyOfEventAt(ls, k);
      if EventAt(ls, k) == [] {
        assert EventsAt(ls, k) == rest;
      } else {
        assert EventsAt(ls, k)[1..] == rest;
        FirstEvent(EventsAt(ls, k), key);
      }
    } else {
      NothingMentioned(key);
    }
  }

  lemma NothingMentioned(key: Key)
    ensures !Mentioned([], key)
  {
  }

  /**
   After parse_logs there is a record for a reload and session exactly when one line names both: session lines only
   attach.
   */
  lemma RecordsAreNamedByOneLine(ls: seq<LogLine>, key: Key)
    ensures key in AddAll(map[], LogEvents(ls)) <==> NamedFrom(ls, 0, key)
  {
    hide AddAll, EventsAt, Mentioned, Evidenced, LogEvents, OkIn;
    LogEventsByLastReload(ls);
    OkIffEvidence(map[], LogEvents(ls), key);
    EventsMentionKeyOfLine(ls, 0, key);
    if i :| 0 <= i < |ls| && KeyOfLine(ls, i) == Some(key) {
      if ls[i].SessionLine? {
        var j := LastReloadIsNamed(ls, i, ls[i].session);
      }
    }
    if NamedFrom(ls, 0, key) {
      var i :| 0 <= i < |ls| && ls[i].IdLine? && Key(ls[i].reload, ls[i].session) == key;
      assert KeyOfLine(ls, i) == Some(key);
    }
  }
}
