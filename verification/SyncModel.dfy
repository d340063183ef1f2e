/** The sync service as a state machine: every call of the service is one step from one state to
  the next.  The class in SyncServices.dfy is proved to take exactly these steps.

  Random identifiers and the current time enter as parameters of the calls.
 */
module SyncModel {
  import opened Wrappers
  import opened OrderedDict
  import opened VectorClocks
  import opened DeepMerge
  import opened Conflicts

  datatype Version = Version(
    versionId: string,
    entityType: string,
    entityId: string,
    parent: Option<string>,
    timestamp: int,
    author: string,
    message: OpKind,
    data: Document)

  datatype Status = Pending | Resolved

  datatype Conflict = Conflict(
    detection: Detection,
    status: Status,
    strategy: Option<Strategy>,
    resolution: Option<Resolution>,
    resolvedAt: Option<int>)

  datatype Client = Client(clock: Clock, lastSyncAt: Option<int>)

  /** The four tables of the service, and the history of every operation it ever applied. */
  datatype State = State(
    operations: Dict<SyncOperation>,
    versions: Dict<Version>,
    conflicts: map<string, Conflict>,
    clients: map<string, Client>,
    applied: seq<SyncOperation>)

  const INIT := State(Raw([], map[]), Raw([], map[]), map[], map[], [])

  datatype Event =
    | Submit(op: SyncOperation, conflictId: string, versionId: string, now: int)
    | ResolveConflict(id: string, strategy: Strategy, data: Option<Document>, now: int)
    | Restore(source: string, opId: string, conflictId: string, versionId: string, now: int)
    | GetStatus(clientId: string)

  datatype Outcome =
    | Applied(version: string)
    | Conflicted(conflict: string)
    | ConflictResolved
    | Restored(version: string)
    | StatusReturned
    | ValueError
    | KeyError

  // ---------------------------------------------------------------------------------------------
  // Pieces of the steps
  // ---------------------------------------------------------------------------------------------

  function OpsOn(ops: seq<SyncOperation>, op: SyncOperation): seq<SyncOperation>
  {
    if ops == [] then []
    else
      var init, last := ops[..|ops| - 1], ops[|ops| - 1];
      if SameEntity(op, last) then OpsOn(init, op) + [last] else OpsOn(init, op)
  }

  /** Exactly the operations on the same entity, in their order. */
  lemma {:induction false} OpsOnPicks(ops: seq<SyncOperation>, op: SyncOperation) returns (picks: seq<nat>)
    ensures Selects(ops, OpsOn(ops, op), picks)
    ensures forall i :: 0 <= i < |ops| ==> (i in picks <==> SameEntity(op, ops[i]))
  {
    if ops == [] {
      picks := [];
    } else {
      var n := |ops| - 1;
      assert ops == ops[..n] + [ops[n]];
      picks := OpsOnPicks(ops[..n], op);
      SelectsAppend(ops[..n], OpsOn(ops[..n], op), picks, ops[n]);
      if SameEntity(op, ops[n]) { picks := picks + [n]; }
    }
  }

  lemma OpsOnMembers(ops: seq<SyncOperation>, op: SyncOperation)
    ensures forall o :: o in OpsOn(ops, op) <==> o in ops && SameEntity(op, o)
  {
    var picks := OpsOnPicks(ops, op);
    forall o ensures o in OpsOn(ops, op) <==> o in ops && SameEntity(op, o) {
      SelectedMembers(ops, OpsOn(ops, op), picks, o);
    }
  }

  function VersionsOf(versions: seq<Version>, entityId: string): seq<Version>
  {
    if versions == [] then []
    else
      var init, last := versions[..|versions| - 1], versions[|versions| - 1];
      if last.entityId == entityId then VersionsOf(init, entityId) + [last] else VersionsOf(init, entityId)
  }

  /** Exactly the versions with the entity id, in their order. */
  lemma {:induction false} VersionsOfPicks(versions: seq<Version>, entityId: string) returns (picks: seq<nat>)
    ensures Selects(versions, VersionsOf(versions, entityId), picks)
    ensures forall i :: 0 <= i < |versions| ==> (i in picks <==> versions[i].entityId == entityId)
  {
    if versions == [] {
      picks := [];
    } else {
      var n := |versions| - 1;
      assert versions == versions[..n] + [versions[n]];
      picks := VersionsOfPicks(versions[..n], entityId);
      SelectsAppend(versions[..n], VersionsOf(versions[..n], entityId), picks, versions[n]);
      if versions[n].entityId == entityId { picks := picks + [n]; }
    }
  }

  lemma VersionsOfMembers(versions: seq<Version>, entityId: string)
    ensures forall v :: v in VersionsOf(versions, entityId) <==> v in versions && v.entityId == entityId
  {
    var picks := VersionsOfPicks(versions, entityId);
    forall v ensures v in VersionsOf(versions, entityId) <==> v in versions && v.entityId == entityId {
      SelectedMembers(versions, VersionsOf(versions, entityId), picks, v);
    }
  }

  /** The version with the greatest timestamp, the first such when several tie. */
  function Newest(versions: seq<Version>): Version
    requires versions != []
  {
    if |versions| == 1 then versions[0]
    else
      var best, last := Newest(versions[..|versions| - 1]), versions[|versions| - 1];
      if best.timestamp < last.timestamp then last else best
  }

  /** The parent of a version created after `earlier`: the newest of them, if there is one. */
  function ParentAfter(earlier: seq<Version>): Option<string>
  {
    if earlier == [] then None else Some(Newest(earlier).versionId)
  }

  function SnapshotOf(versions: Dict<Version>, op: SyncOperation, versionId: string, now: int): Version
  {
    Version(versionId, op.entityType, op.entityId, ParentAfter(VersionsOf(Values(versions), op.entityId)), now,
            op.clientId, op.kind, op.data)
  }

  function ClockOf(clients: map<string, Client>, clientId: string): Clock
  {
    if clientId in clients then clients[clientId].clock else map[]
  }

  function Synced(clients: map<string, Client>, clientId: string, clock: Clock, now: int): map<string, Client>
  {
    clients[clientId := Client(Join(ClockOf(clients, clientId), clock), Some(now))]
  }

  function RestoreOp(v: Version, opId: string, now: int): SyncOperation
  {
    SyncOperation(opId, "system", v.entityType, v.entityId, Update, now, map[], v.data)
  }

  // ---------------------------------------------------------------------------------------------
  // Changes of the tables
  // ---------------------------------------------------------------------------------------------

  /** Every call leaves the tables alone or makes one of four changes. */
  datatype Change =
    | ApplyOp(op: SyncOperation, version: Version, now: int)
    | AddConflict(conflictId: string, detection: Detection)
    | CloseConflict(id: string, closed: Conflict, winner: Option<SyncOperation>, now: int)
    | AddClient(clientId: string)
    | Nothing

  function Opened(detection: Detection): Conflict
  {
    Conflict(detection, Pending, None, None, None)
  }

  function Closed(c: Conflict, strategy: Strategy, resolution: Resolution, now: int): Conflict
  {
    Conflict(c.detection, Resolved, Some(strategy), Some(resolution), Some(now))
  }

  function Effect(s: State, ch: Change): State
  {
    match ch
    case ApplyOp(op, version, now) =>
      s.(operations := Put(s.operations, op.id, op),
         versions := Put(s.versions, version.versionId, version),
         clients := Synced(s.clients, op.clientId, op.clock, now),
         applied := s.applied + [op])
    case AddConflict(conflictId, detection) =>
      s.(conflicts := s.conflicts[conflictId := Opened(detection)])
    case CloseConflict(id, closed, winner, now) =>
      s.(conflicts := s.conflicts[id := closed],
         clients := if winner.None? then s.clients
                    else Synced(s.clients, winner.value.clientId, winner.value.clock, now))
    case AddClient(clientId) => s.(clients := s.clients[clientId := Client(map[], None)])
    case Nothing => s
  }

  // ---------------------------------------------------------------------------------------------
  // Steps
  // ---------------------------------------------------------------------------------------------

  function DetectAgainst(s: State, op: SyncOperation): Option<Detection>
  {
    Detect(op, OpsOn(Values(s.operations), op))
  }

  function SubmitStep(s: State, op: SyncOperation, conflictId: string, versionId: string, now: int): (State, Outcome)
  {
    match DetectAgainst(s, op)
    case Some(detection) => (Effect(s, AddConflict(conflictId, detection)), Conflicted(conflictId))
    case None => (Effect(s, ApplyOp(op, SnapshotOf(s.versions, op, versionId, now), now)), Applied(versionId))
  }

  /** Resolution marks the conflict first; under last-writer-wins it then looks the winner up among
      the stored operations, and fails there when the winner is not stored. */
  function ResolveStep(s: State, id: string, strategy: Strategy, data: Option<Document>, now: int): (State, Outcome)
  {
    if id !in s.conflicts then (s, ValueError)
    else match Resolve(s.conflicts[id].detection.operations, strategy, data)
      case None => (s, ValueError)
      case Some(resolution) =>
        var closed := Closed(s.conflicts[id], strategy, resolution, now);
        if resolution.LwwResolution? then
          if resolution.winningOperation !in s.operations.table then
            (Effect(s, CloseConflict(id, closed, None, now)), KeyError)
          else
            var winner := s.operations.table[resolution.winningOperation];
            (Effect(s, CloseConflict(id, closed, Some(winner), now)), ConflictResolved)
        else (Effect(s, CloseConflict(id, closed, None, now)), ConflictResolved)
  }

  /** Restoring submits an update with an empty clock; a conflicting submission has no version to
      report, so the call fails after the conflict was recorded. */
  function RestoreStep(s: State, source: string, opId: string, conflictId: string, versionId: string, now: int)
    : (State, Outcome)
  {
    if source !in s.versions.table then (s, ValueError)
    else
      var (after, outcome) := SubmitStep(s, RestoreOp(s.versions.table[source], opId, now), conflictId, versionId, now);
      (after, if outcome.Applied? then Restored(versionId) else KeyError)
  }

  function StatusStep(s: State, clientId: string): State
  {
    if clientId in s.clients then s else Effect(s, AddClient(clientId))
  }

  function Step(s: State, e: Event): (State, Outcome)
  {
    match e
    case Submit(op, conflictId, versionId, now) => SubmitStep(s, op, conflictId, versionId, now)
    case ResolveConflict(id, strategy, data, now) => ResolveStep(s, id, strategy, data, now)
    case Restore(source, opId, conflictId, versionId, now) => RestoreStep(s, source, opId, conflictId, versionId, now)
    case GetStatus(clientId) => (StatusStep(s, clientId), StatusReturned)
  }

  /** The state after a run of calls on a new service. */
  function Run(events: seq<Event>): State
  {
    if events == [] then INIT
    else Step(Run(events[..|events| - 1]), events[|events| - 1]).0
  }

  function OutcomeAt(events: seq<Event>, i: nat): Outcome
    requires i < |events|
  {
    Step(Run(events[..i]), events[i]).1
  }

  // ---------------------------------------------------------------------------------------------
  // When a call may make a change
  // ---------------------------------------------------------------------------------------------

  /** The operation a call submits. */
  ghost predicate Submitting(s: State, e: Event, op: SyncOperation)
  {
    || (e.Submit? && op == e.op)
    || (e.Restore? && e.source in s.versions.table && op == RestoreOp(s.versions.table[e.source], e.opId, e.now))
  }

  /** When a call may make a change. */
  ghost predicate Justified(s: State, e: Event, ch: Change)
  {
    match ch
    case ApplyOp(op, version, now) =>
      && Submitting(s, e, op) && DetectAgainst(s, op).None?
      && now == e.now && version == SnapshotOf(s.versions, op, e.versionId, now)
    case AddConflict(conflictId, detection) =>
      && (e.Submit? || (e.Restore? && e.source in s.versions.table)) && conflictId == e.conflictId
      && exists op :: Submitting(s, e, op) && DetectAgainst(s, op) == Some(detection)
    case CloseConflict(id, closed, winner, now) =>
      && e.ResolveConflict? && id == e.id && id in s.conflicts
      && closed.detection == s.conflicts[id].detection && closed.status == Resolved
      && (winner.Some? ==> exists k :: k in s.operations.table && s.operations.table[k] == winner.value)
    case AddClient(clientId) => e == GetStatus(clientId) && clientId !in s.clients
    case Nothing => !e.Submit? && (e.Restore? ==> e.source !in s.versions.table)
  }

  /** A step is its change. */
  lemma StepIsEffect(s: State, e: Event) returns (ch: Change)
    ensures Step(s, e).0 == Effect(s, ch)
    ensures Justified(s, e, ch)
  {
    match e
    case Submit(op, _, _, _) => ch := SubmitIsEffect(s, e, op);
    case Restore(source, opId, _, _, now) =>
      if source in s.versions.table {
        ch := SubmitIsEffect(s, e, RestoreOp(s.versions.table[source], opId, now));
      } else {
        ch := Nothing;
      }
    case ResolveConflict(id, strategy, data, now) => ch := ResolveIsEffect(s, e);
    case GetStatus(clientId) => ch := if clientId in s.clients then Nothing else AddClient(clientId);
  }

  lemma SubmitIsEffect(s: State, e: Event, op: SyncOperation) returns (ch: Change)
    requires Submitting(s, e, op)
    ensures SubmitStep(s, op, e.conflictId, e.versionId, e.now).0 == Effect(s, ch)
    ensures Justified(s, e, ch)
  {
    var d := DetectAgainst(s, op);
    ch := if d.None? then ApplyOp(op, SnapshotOf(s.versions, op, e.versionId, e.now), e.now)
          else AddConflict(e.conflictId, d.value);
  }

  lemma ResolveIsEffect(s: State, e: Event) returns (ch: Change)
    requires e.ResolveConflict?
    ensures ResolveStep(s, e.id, e.strategy, e.data, e.now).0 == Effect(s, ch)
    ensures Justified(s, e, ch)
  {
    if e.id !in s.conflicts { return Nothing; }
    var resolution := Resolve(s.conflicts[e.id].detection.operations, e.strategy, e.data);
    if resolution.None? { return Nothing; }
    var closed := Closed(s.conflicts[e.id], e.strategy, resolution.value, e.now);
    if resolution.value.LwwResolution? && resolution.value.winningOperation in s.operations.table {
      ch := CloseConflict(e.id, closed, Some(s.operations.table[resolution.value.winningOperation]), e.now);
    } else {
      ch := CloseConflict(e.id, closed, None, e.now);
    }
  }

  // ---------------------------------------------------------------------------------------------
  // Freshness of generated identifiers
  // ---------------------------------------------------------------------------------------------

  /** Identifiers the service generates have not been used before. */
  predicate FreshIds(s: State, e: Event)
  {
    match e
    case Submit(_, conflictId, versionId, _) =>
      conflictId !in s.conflicts && versionId !in s.versions.table
    case Restore(_, opId, conflictId, versionId, _) =>
      opId !in s.operations.table && conflictId !in s.conflicts && versionId !in s.versions.table
    case _ => true
  }

  predicate FreshRun(events: seq<Event>)
  {
    events == [] ||
    (var init := events[..|events| - 1]; FreshRun(init) && FreshIds(Run(init), events[|events| - 1]))
  }

  /** Clients, too, never submit under the id of a stored operation. */
  predicate NewOperationIds(events: seq<Event>)
  {
    events == [] ||
    (var init, e := events[..|events| - 1], events[|events| - 1];
     NewOperationIds(init) && (e.Submit? ==> e.op.id !in Run(init).operations.table))
  }
}
