/** What holds in every state the sync service can reach, whatever calls are made in whatever order. */
module SyncProperties {
  import opened Wrappers
  import opened OrderedDict
  import opened VectorClocks
  import opened DeepMerge
  import opened Conflicts
  import opened SyncModel

  // ---------------------------------------------------------------------------------------------
  // Acceptance
  // ---------------------------------------------------------------------------------------------

  /** No stored operation clashes with `op`. */
  ghost predicate Undisputed(s: State, op: SyncOperation)
  {
    forall k :: k in s.operations.table ==> !Clashes(op, s.operations.table[k])
  }

  lemma AcceptedWhenUndisputed(s: State, op: SyncOperation)
    ensures DetectAgainst(s, op).None? <==> Undisputed(s, op)
  {
    var _ := DetectorIsExact(op, OpsOn(Values(s.operations), op));
    OpsOnMembers(Values(s.operations), op);
    ValuesOfTable(s.operations);
    assert forall k :: k in s.operations.table ==> s.operations.table[k] in Values(s.operations);
  }

  // ---------------------------------------------------------------------------------------------
  // The causal chain
  // ---------------------------------------------------------------------------------------------

  ghost predicate ClashFree(ops: map<string, SyncOperation>)
  {
    forall a, b :: a in ops && b in ops && a != b ==> !Clashes(ops[a], ops[b])
  }

  lemma EffectKeepsClashFree(s: State, ch: Change)
    requires ClashFree(s.operations.table)
    requires ch.ApplyOp? ==> Undisputed(s, ch.op)
    ensures ClashFree(Effect(s, ch).operations.table)
  {
    if ch.ApplyOp? {
      var ops := s.operations.table[ch.op.id := ch.op];
      forall a, b | a in ops && b in ops && a != b ensures !Clashes(ops[a], ops[b]) {
        ClashesSymmetric(ops[a], ops[b]);
      }
    }
  }

  lemma {:induction false} RunIsClashFree(events: seq<Event>)
    ensures ClashFree(Run(events).operations.table)
  {
    if events == [] {
    } else {
      var s, e := Run(events[..|events| - 1]), events[|events| - 1];
      RunIsClashFree(events[..|events| - 1]);
      var ch := StepIsEffect(s, e);
      if ch.ApplyOp? { AcceptedWhenUndisputed(s, ch.op); }
      EffectKeepsClashFree(s, ch);
    }
  }

  lemma OrderedPair(ops: map<string, SyncOperation>, a: string, b: string)
    requires ClashFree(ops) && a in ops && b in ops && a != b
    requires SameEntity(ops[a], ops[b]) && ops[a].kind == Update && ops[b].kind in {Update, Delete}
    ensures HappensBefore(ops[a].clock, ops[b].clock) || HappensBefore(ops[b].clock, ops[a].clock)
  {
    assert !Clashes(ops[a], ops[b]);
  }

  /** In every reachable state the stored updates of one entity are strictly totally ordered by
      causality, and every stored delete is ordered against every stored update. */
  lemma CausalChain(events: seq<Event>, a: string, b: string)
    requires a != b && a in Run(events).operations.table && b in Run(events).operations.table
    requires SameEntity(Run(events).operations.table[a], Run(events).operations.table[b])
    requires Run(events).operations.table[a].kind == Update
    requires Run(events).operations.table[b].kind in {Update, Delete}
    ensures var x, y := Run(events).operations.table[a].clock, Run(events).operations.table[b].clock;
            (HappensBefore(x, y) && !HappensBefore(y, x)) || (HappensBefore(y, x) && !HappensBefore(x, y))
  {
    RunIsClashFree(events);
    var ops := Run(events).operations.table;
    OrderedPair(ops, a, b);
    HappensBeforeIsStrictOrder(ops[a].clock, ops[b].clock, ops[a].clock);
  }

  predicate IsUpdateOf(op: SyncOperation, entityType: string, entityId: string)
  {
    op.kind == Update && op.entityType == entityType && op.entityId == entityId
  }

  /** The update of an entity that comes after all its other updates. */
  ghost predicate IsLatest(ops: map<string, SyncOperation>, latest: string, entityType: string, entityId: string)
  {
    && latest in ops && IsUpdateOf(ops[latest], entityType, entityId)
    && forall k :: k in ops && k != latest && IsUpdateOf(ops[k], entityType, entityId) ==>
         HappensBefore(ops[k].clock, ops[latest].clock)
  }

  /** An entity with a stored update has exactly one that comes after all the others. */
  lemma LatestUpdate(events: seq<Event>, entityType: string, entityId: string) returns (latest: string)
    requires exists k :: k in Run(events).operations.table &&
                         IsUpdateOf(Run(events).operations.table[k], entityType, entityId)
    ensures forall h :: IsLatest(Run(events).operations.table, h, entityType, entityId) <==> h == latest
  {
    RunIsClashFree(events);
    latest := LatestIn(Run(events).operations.table, entityType, entityId);
  }

  lemma LatestIn(ops: map<string, SyncOperation>, entityType: string, entityId: string) returns (latest: string)
    requires ClashFree(ops)
    requires exists k :: k in ops && IsUpdateOf(ops[k], entityType, entityId)
    ensures forall h :: IsLatest(ops, h, entityType, entityId) <==> h == latest
  {
    var keys := set k | k in ops && IsUpdateOf(ops[k], entityType, entityId);
    var first :| first in ops && IsUpdateOf(ops[first], entityType, entityId);
    assert first in keys;
    latest := GreatestAmong(ops, keys);
    forall h | IsLatest(ops, h, entityType, entityId) ensures h == latest {
      HappensBeforeIsStrictOrder(ops[h].clock, ops[latest].clock, ops[h].clock);
    }
  }

  lemma {:induction false} GreatestAmong(ops: map<string, SyncOperation>, keys: set<string>) returns (g: string)
    requires keys != {} && keys <= ops.Keys && ClashFree(ops)
    requires forall a, b :: a in keys && b in keys ==>
               SameEntity(ops[a], ops[b]) && ops[a].kind == Update
    ensures g in keys
    ensures forall k :: k in keys && k != g ==> HappensBefore(ops[k].clock, ops[g].clock)
    decreases keys
  {
    var x :| x in keys;
    if keys == {x} {
      g := x;
    } else {
      var rest := keys - {x};
      assert keys == rest + {x};
      g := GreatestAmong(ops, rest);
      OrderedPair(ops, x, g);
      if HappensBefore(ops[g].clock, ops[x].clock) {
        forall k | k in rest ensures HappensBefore(ops[k].clock, ops[x].clock) {
          HappensBeforeIsStrictOrder(ops[k].clock, ops[g].clock, ops[x].clock);
        }
        g := x;
      }
    }
  }

  /** Sending a stored update again is never accepted: it is concurrent with itself. */
  lemma ResubmissionConflicts(s: State, k: string)
    requires k in s.operations.table && s.operations.table[k].kind == Update
    ensures DetectAgainst(s, s.operations.table[k]).Some?
  {
    var op := s.operations.table[k];
    HappensBeforeIsStrictOrder(op.clock, op.clock, op.clock);
    assert Clashes(op, s.operations.table[k]);
    AcceptedWhenUndisputed(s, op);
  }

  // ---------------------------------------------------------------------------------------------
  // Client clocks
  // ---------------------------------------------------------------------------------------------

  /** Merging into `base` the clocks of the operations of one client. */
  function JoinOnto(base: Clock, ops: seq<SyncOperation>, clientId: string): Clock
  {
    if ops == [] then base
    else
      var init, last := JoinOnto(base, ops[..|ops| - 1], clientId), ops[|ops| - 1];
      if last.clientId == clientId then Join(init, last.clock) else init
  }

  ghost predicate Mentions(op: SyncOperation, clientId: string, c: string)
  {
    op.clientId == clientId && c in op.clock
  }

  /** The merged clock is the entry-wise maximum of what was there before and all merged clocks. */
  lemma {:induction false} JoinOntoIsMaximum(base: Clock, ops: seq<SyncOperation>, clientId: string, c: string)
    ensures var r := JoinOnto(base, ops, clientId);
            && (c in r <==> c in base || exists o :: o in ops && Mentions(o, clientId, c))
            && Get(base, c) <= Get(r, c)
            && (forall o :: o in ops && Mentions(o, clientId, c) ==> o.clock[c] <= Get(r, c))
            && (Get(r, c) == Get(base, c)
                || exists o :: o in ops && Mentions(o, clientId, c) && o.clock[c] == Get(r, c))
  {
    if ops == [] {
    } else {
      var init, last := ops[..|ops| - 1], ops[|ops| - 1];
      JoinOntoIsMaximum(base, init, clientId, c);
      assert last in ops && forall o :: o in ops <==> o in init || o == last;
    }
  }

  function ClientIds(ops: seq<SyncOperation>): set<string>
  {
    set o | o in ops :: o.clientId
  }

  /** `after` holds, for each of its clients, what was there before merged with the clocks of the
      client's operations, and every client with an operation is there. */
  ghost predicate ClocksJoined(before: map<string, Client>, ops: seq<SyncOperation>, after: map<string, Client>)
  {
    && ClientIds(ops) <= after.Keys
    && forall c :: c in after ==> after[c].clock == JoinOnto(ClockOf(before, c), ops, c)
  }

  ghost predicate ClocksAreJoins(s: State)
  {
    && ClocksJoined(map[], s.applied, s.clients)
    && forall k :: k in s.operations.table ==> s.operations.table[k] in s.applied
  }

  lemma JoinOntoAppend(base: Clock, ops: seq<SyncOperation>, op: SyncOperation, c: string)
    ensures JoinOnto(base, ops + [op], c) ==
            if op.clientId == c then Join(JoinOnto(base, ops, c), op.clock) else JoinOnto(base, ops, c)
  {
  }

  lemma ClocksJoinedStep(before: map<string, Client>, ops: seq<SyncOperation>, mid: map<string, Client>,
                         op: SyncOperation, now: int)
    requires ClocksJoined(before, ops, mid) && before.Keys <= mid.Keys
    ensures ClocksJoined(before, ops + [op], Synced(mid, op.clientId, op.clock, now))
  {
    var after := Synced(mid, op.clientId, op.clock, now);
    ClientIdsAppend(ops, op);
    forall c | c in after ensures after[c].clock == JoinOnto(ClockOf(before, c), ops + [op], c) {
      JoinOntoAppend(ClockOf(before, c), ops, op, c);
      if c !in mid { NothingToJoin(ClockOf(before, c), ops, c); }
    }
  }

  lemma ClientIdsAppend(ops: seq<SyncOperation>, op: SyncOperation)
    ensures ClientIds(ops + [op]) == ClientIds(ops) + {op.clientId}
  {
  }

  lemma {:induction false} NothingToJoin(base: Clock, ops: seq<SyncOperation>, clientId: string)
    requires clientId !in ClientIds(ops)
    ensures JoinOnto(base, ops, clientId) == base
  {
    if ops == [] {
    } else {
      ClientIdsAppend(ops[..|ops| - 1], ops[|ops| - 1]);
      assert ops == ops[..|ops| - 1] + [ops[|ops| - 1]];
      NothingToJoin(base, ops[..|ops| - 1], clientId);
    }
  }

  /** An operation already merged adds nothing. */
  lemma JoinedAlready(ops: seq<SyncOperation>, o: SyncOperation)
    requires o in ops
    ensures Join(JoinOnto(map[], ops, o.clientId), o.clock) == JoinOnto(map[], ops, o.clientId)
  {
  }

  lemma EffectKeepsJoins(s: State, ch: Change)
    requires ClocksAreJoins(s)
    requires ch.CloseConflict? && ch.winner.Some? ==> ch.winner.value in s.applied
    requires ch.AddClient? ==> ch.clientId !in s.clients
    ensures ClocksAreJoins(Effect(s, ch))
    ensures ch.CloseConflict? || ch.Nothing? ==>
      Effect(s, ch).clients.Keys == s.clients.Keys &&
      forall c :: c in s.clients ==> Effect(s, ch).clients[c].clock == s.clients[c].clock
  {
    match ch
    case ApplyOp(op, version, now) => ClocksJoinedStep(map[], s.applied, s.clients, op, now);
    case CloseConflict(id, closed, winner, now) =>
      if winner.Some? { JoinedAlready(s.applied, winner.value); }
    case AddClient(clientId) => NothingToJoin(map[], s.applied, clientId);
    case _ =>
  }

  lemma {:induction false} RunKeepsJoins(events: seq<Event>)
    ensures ClocksAreJoins(Run(events))
  {
    if events == [] {
    } else {
      var s, e := Run(events[..|events| - 1]), events[|events| - 1];
      RunKeepsJoins(events[..|events| - 1]);
      var ch := StepIsEffect(s, e);
      EffectKeepsJoins(s, ch);
    }
  }

  /** In every reachable state a client's clock is the entry-wise maximum of the clocks of all
      operations ever applied for that client, and has entries for exactly the clients they name.
      (The maximum starts at zero, which shows only when every clock has a negative entry.) */
  lemma ClientClockIsMaximum(events: seq<Event>, clientId: string, c: string)
    requires clientId in Run(events).clients
    ensures var s := Run(events); var clock := s.clients[clientId].clock;
            && (c in clock <==> exists o :: o in s.applied && Mentions(o, clientId, c))
            && (forall o :: o in s.applied && Mentions(o, clientId, c) ==> o.clock[c] <= Get(clock, c))
            && (Get(clock, c) == 0
                || exists o :: o in s.applied && Mentions(o, clientId, c) && o.clock[c] == Get(clock, c))
            && Get(clock, c) >= 0
  {
    RunKeepsJoins(events);
    JoinOntoIsMaximum(map[], Run(events).applied, clientId, c);
  }

  /** Resolving a conflict, under any strategy and whether or not it fails, moves no client's clock
      and creates no client. */
  lemma ResolutionMovesNoClock(events: seq<Event>, e: Event)
    requires e.ResolveConflict?
    ensures var before, after := Run(events).clients, Step(Run(events), e).0.clients;
            after.Keys == before.Keys && forall c :: c in before ==> after[c].clock == before[c].clock
  {
    RunKeepsJoins(events);
    var ch := StepIsEffect(Run(events), e);
    EffectKeepsJoins(Run(events), ch);
  }

  // ---------------------------------------------------------------------------------------------
  // Conflict records
  // ---------------------------------------------------------------------------------------------

  /** A record lists the rejected operation, then operations that were stored and stay stored. */
  ghost predicate RecordsAreGrounded(s: State)
  {
    forall id :: id in s.conflicts ==> Grounded(s, s.conflicts[id].detection)
  }

  ghost predicate KeyedByVersionId(versions: Dict<Version>)
  {
    forall k :: k in versions.table ==> versions.table[k].versionId == k
  }

  ghost predicate KeyedById(s: State)
  {
    && (forall k :: k in s.operations.table ==> s.operations.table[k].id == k)
    && KeyedByVersionId(s.versions)
  }

  ghost predicate Grounded(s: State, detection: Detection)
  {
    var ops := detection.operations;
    |ops| >= 2 && forall k :: 1 <= k < |ops| ==> ops[k].id in s.operations.table
  }

  lemma DetectionIsGrounded(s: State, op: SyncOperation)
    requires KeyedById(s) && DetectAgainst(s, op).Some?
    ensures Grounded(s, DetectAgainst(s, op).value)
  {
    var existing := OpsOn(Values(s.operations), op);
    var picks := DetectorIsExact(op, existing);
    OpsOnMembers(Values(s.operations), op);
    ValuesOfTable(s.operations);
    var ops := Detect(op, existing).value.operations;
    forall k | 1 <= k < |ops| ensures ops[k].id in s.operations.table {
      assert ops[1 + (k - 1)] == existing[picks[k - 1]];
      assert existing[picks[k - 1]] in existing;
    }
  }

  lemma EffectKeepsRecords(s: State, ch: Change)
    requires RecordsAreGrounded(s) && KeyedById(s)
    requires ch.AddConflict? ==> Grounded(s, ch.detection)
    requires ch.CloseConflict? ==> ch.id in s.conflicts &&
                                   ch.closed.detection == s.conflicts[ch.id].detection
    ensures RecordsAreGrounded(Effect(s, ch)) && KeyedById(Effect(s, ch))
  {
  }

  lemma {:induction false} RunKeepsRecords(events: seq<Event>)
    ensures RecordsAreGrounded(Run(events)) && KeyedById(Run(events))
  {
    if events == [] {
    } else {
      var s, e := Run(events[..|events| - 1]), events[|events| - 1];
      RunKeepsRecords(events[..|events| - 1]);
      var ch := StepIsEffect(s, e);
      if ch.AddConflict? {
        var op :| Submitting(s, e, op) && DetectAgainst(s, op) == Some(ch.detection);
        DetectionIsGrounded(s, op);
      }
      EffectKeepsRecords(s, ch);
    }
  }

  /** Last-writer-wins fails exactly when the rejected operation itself is the winner and its id has
      not been stored since; that conflict is marked resolved all the same, and nothing else changes. */
  lemma LwwFailsExactly(events: seq<Event>, id: string, data: Option<Document>, now: int)
    requires id in Run(events).conflicts
    ensures LwwOutcome(Run(events), id, data, now)
  {
    RunKeepsRecords(events);
    LwwFailsIn(Run(events), id, data, now);
  }

  ghost predicate LwwOutcome(s: State, id: string, data: Option<Document>, now: int)
    requires id in s.conflicts
  {
    var ops := s.conflicts[id].detection.operations;
    var (after, outcome) := ResolveStep(s, id, Lww, data, now);
    && ops != []
    && (outcome == KeyError <==> Winner(ops) == ops[0] && ops[0].id !in s.operations.table)
    && (outcome != KeyError ==> outcome == ConflictResolved)
    && after.conflicts ==
         s.conflicts[id := Closed(s.conflicts[id], Lww, LwwResolution(Winner(ops).id, Winner(ops).data), now)]
    && after == s.(conflicts := after.conflicts, clients := after.clients)
    && (outcome == KeyError ==> after.clients == s.clients)
  }

  lemma LwwFailsIn(s: State, id: string, data: Option<Document>, now: int)
    requires RecordsAreGrounded(s) && id in s.conflicts
    ensures LwwOutcome(s, id, data, now)
  {
    var ops := s.conflicts[id].detection.operations;
    assert Grounded(s, s.conflicts[id].detection);
    var _ := WinnerIsLatest(ops);
    if Winner(ops) != ops[0] {
      var k :| 0 <= k < |ops| && ops[k] == Winner(ops);
    }
  }

  // ---------------------------------------------------------------------------------------------
  // Conservation
  // ---------------------------------------------------------------------------------------------

  /** A call that submits an operation: every direct submission, and every restore of a version
      that exists. */
  predicate Submits(s: State, e: Event)
  {
    e.Submit? || (e.Restore? && e.source in s.versions.table)
  }

  function Submissions(events: seq<Event>): nat
  {
    if events == [] then 0
    else
      var init := events[..|events| - 1];
      Submissions(init) + if Submits(Run(init), events[|events| - 1]) then 1 else 0
  }

  function DistinctIdsOf(ops: seq<SyncOperation>): set<string>
  {
    set o | o in ops :: o.id
  }

  ghost predicate Balanced(s: State, submissions: nat)
  {
    && submissions == |s.applied| + |s.conflicts|
    && |s.versions.table| == |s.applied|
    && s.operations.table.Keys == DistinctIdsOf(s.applied)
  }

  lemma EffectKeepsBalance(s: State, n: nat, ch: Change)
    requires Balanced(s, n)
    requires ch.ApplyOp? ==> ch.version.versionId !in s.versions.table
    requires ch.AddConflict? ==> ch.conflictId !in s.conflicts
    requires ch.CloseConflict? ==> ch.id in s.conflicts
    ensures Balanced(Effect(s, ch), n + if ch.ApplyOp? || ch.AddConflict? then 1 else 0)
  {
    match ch
    case ApplyOp(op, version, now) =>
      assert |s.versions.table[version.versionId := version]| == |s.versions.table| + 1;
      assert forall o :: o in s.applied + [op] <==> o in s.applied || o == op;
    case AddConflict(conflictId, detection) =>
      assert |Effect(s, ch).conflicts| == |s.conflicts| + 1;
    case CloseConflict(id, closed, winner, now) =>
      assert Effect(s, ch).conflicts.Keys == s.conflicts.Keys;
      assert |Effect(s, ch).conflicts| == |Effect(s, ch).conflicts.Keys|;
      assert |s.conflicts| == |s.conflicts.Keys|;
    case _ =>
  }

  lemma {:induction false} RunIsBalanced(events: seq<Event>)
    requires FreshRun(events)
    ensures Balanced(Run(events), Submissions(events))
  {
    if events == [] {
    } else {
      var init, e := events[..|events| - 1], events[|events| - 1];
      RunIsBalanced(init);
      var ch := StepIsEffect(Run(init), e);
      EffectKeepsBalance(Run(init), Submissions(init), ch);
    }
  }

  lemma {:induction false} IdCount(ops: seq<SyncOperation>)
    ensures |DistinctIdsOf(ops)| <= |ops|
    ensures |DistinctIdsOf(ops)| == |ops| <==> IdsDiffer(ops)
  {
    if ops == [] {
    } else {
      var init, last := ops[..|ops| - 1], ops[|ops| - 1];
      IdCount(init);
      assert forall o :: o in ops <==> o in init || o == last;
      assert DistinctIdsOf(ops) == DistinctIdsOf(init) + {last.id};
      assert IdsDiffer(ops) <==> IdsDiffer(init) && last.id !in DistinctIdsOf(init) by {
        LastIdDiffers(init, last);
        assert ops == init + [last];
      }
    }
  }

  lemma LastIdDiffers(init: seq<SyncOperation>, last: SyncOperation)
    ensures IdsDiffer(init + [last]) <==> IdsDiffer(init) && last.id !in DistinctIdsOf(init)
  {
    var ops := init + [last];
    if IdsDiffer(ops) {
      forall i, j | 0 <= i < j < |init| ensures init[i].id != init[j].id {
        assert ops[i].id != ops[j].id;
      }
      forall o | o in init ensures o.id != last.id {
        var i :| 0 <= i < |init| && init[i] == o;
        assert ops[i].id != ops[|init|].id;
      }
    }
    assert forall i :: 0 <= i < |init| ==> init[i].id in DistinctIdsOf(init);
  }

  /** Nothing is lost or invented: submissions are applied operations plus recorded conflicts,
      versions are as many as applied operations, and the stored operations are as many exactly when
      no operation id was applied twice. */
  lemma Conservation(events: seq<Event>)
    requires FreshRun(events)
    ensures var s := Run(events);
            && Submissions(events) == |s.applied| + |s.conflicts|
            && |s.versions.table| == |s.applied|
            && (|s.operations.table| == |s.applied| <==> IdsDiffer(s.applied))
  {
    RunIsBalanced(events);
    IdCount(Run(events).applied);
    assert |Run(events).operations.table| == |Run(events).operations.table.Keys|;
  }

  ghost predicate IdsDiffer(ops: seq<SyncOperation>)
  {
    forall i, j :: 0 <= i < j < |ops| ==> ops[i].id != ops[j].id
  }

  lemma EffectKeepsIdsDiffer(s: State, ch: Change)
    requires IdsDiffer(s.applied) && s.operations.table.Keys == DistinctIdsOf(s.applied)
    requires ch.ApplyOp? ==> ch.op.id !in s.operations.table
    ensures IdsDiffer(Effect(s, ch).applied)
  {
  }

  lemma {:induction false} AppliedIdsDiffer(events: seq<Event>)
    requires FreshRun(events) && NewOperationIds(events)
    ensures IdsDiffer(Run(events).applied)
  {
    if events == [] {
    } else {
      var init, e := events[..|events| - 1], events[|events| - 1];
      AppliedIdsDiffer(init);
      RunIsBalanced(init);
      var ch := StepIsEffect(Run(init), e);
      EffectKeepsIdsDiffer(Run(init), ch);
    }
  }

  /** When clients, too, use every operation id once, submissions equal stored operations plus
      recorded conflicts. */
  lemma SubmissionsAreStoredOrRecorded(events: seq<Event>)
    requires FreshRun(events) && NewOperationIds(events)
    ensures var s := Run(events);
            Submissions(events) == |s.operations.table| + |s.conflicts| &&
            |s.versions.table| == |s.operations.table|
  {
    Conservation(events);
    AppliedIdsDiffer(events);
  }

  /** Conflicts are never dropped, and a resolved one never goes back to pending, whatever call is
      made next and however it ends. */
  lemma ResolvedForGood(s: State, e: Event, id: string)
    requires FreshIds(s, e) && id in s.conflicts
    ensures var after := Step(s, e).0.conflicts;
            && id in after
            && after[id].detection == s.conflicts[id].detection
            && (s.conflicts[id].status == Resolved ==> after[id].status == Resolved)
            && (after[id].status != s.conflicts[id].status ==> e.ResolveConflict? && e.id == id)
  {
    var ch := StepIsEffect(s, e);
  }

  predicate IsResolved(s: State, id: string)
  {
    id in s.conflicts && s.conflicts[id].status == Resolved
  }

  lemma StaysResolved(s: State, e: Event, id: string)
    requires FreshIds(s, e) && IsResolved(s, id)
    ensures IsResolved(Step(s, e).0, id)
  {
    ResolvedForGood(s, e, id);
  }

  ghost predicate HoldsAt(events: seq<Event>, k: nat, holds: State -> bool)
    requires k <= |events|
  {
    holds(Run(events[..k]))
  }

  /** What no call of a run breaks, from some point on, is true at its end. */
  lemma {:induction false} Persists(events: seq<Event>, i: nat, j: nat, holds: State -> bool)
    requires i <= j <= |events| && HoldsAt(events, i, holds)
    requires forall k: nat :: i <= k < j && HoldsAt(events, k, holds) ==> HoldsAt(events, k + 1, holds)
    ensures HoldsAt(events, j, holds)
    decreases j
  {
    if i == j {
    } else {
      Persists(events, i, j - 1, holds);
    }
  }

  lemma RunOneMore(events: seq<Event>, k: nat)
    requires k < |events|
    ensures Run(events[..k + 1]) == Step(Run(events[..k]), events[k]).0
  {
    assert events[..k + 1][..k] == events[..k];
  }

  lemma {:induction false} FreshAt(events: seq<Event>, k: nat)
    requires FreshRun(events) && k < |events|
    ensures FreshIds(Run(events[..k]), events[k])
    decreases |events|
  {
    var init := events[..|events| - 1];
    if k == |init| {
      assert events[..k] == init;
    } else {
      assert init[..k] == events[..k] && init[k] == events[k];
      FreshAt(init, k);
    }
  }

  /** Once resolved, a conflict is resolved at the end of every run. */
  lemma ResolvedStaysResolved(events: seq<Event>, i: nat, id: string)
    requires FreshRun(events) && i <= |events| && IsResolved(Run(events[..i]), id)
    ensures IsResolved(Run(events), id)
  {
    var holds := s => IsResolved(s, id);
    forall k: nat | k < |events| && HoldsAt(events, k, holds) ensures HoldsAt(events, k + 1, holds) {
      FreshAt(events, k);
      RunOneMore(events, k);
      StaysResolved(Run(events[..k]), events[k], id);
    }
    Persists(events, i, |events|, holds);
    assert events[..|events|] == events;
  }

  // ---------------------------------------------------------------------------------------------
  // Restore
  // ---------------------------------------------------------------------------------------------

  ghost predicate AllZero(c: Clock)
  {
    forall k :: Get(c, k) == 0
  }

  ghost predicate NoNegative(c: Clock)
  {
    forall k :: Get(c, k) >= 0
  }

  lemma ConcurrentWithEmpty(c: Clock)
    requires NoNegative(c)
    ensures Concurrent(map[], c) <==> AllZero(c)
  {
  }

  ghost predicate OnEntityOf(op: SyncOperation, v: Version)
  {
    op.entityType == v.entityType && op.entityId == v.entityId
  }

  /** No stored update or delete of the version's entity is concurrent with the empty clock. */
  ghost predicate Restorable(s: State, v: Version)
  {
    forall k :: k in s.operations.table && s.operations.table[k].kind in {Update, Delete} &&
                OnEntityOf(s.operations.table[k], v) ==>
      !Concurrent(map[], s.operations.table[k].clock)
  }

  lemma RestoreClashes(s: State, v: Version, opId: string, now: int)
    ensures Undisputed(s, RestoreOp(v, opId, now)) <==> Restorable(s, v)
  {
    var op := RestoreOp(v, opId, now);
    forall k | k in s.operations.table
      ensures Clashes(op, s.operations.table[k]) <==>
              OnEntityOf(s.operations.table[k], v) && s.operations.table[k].kind in {Update, Delete} &&
              Concurrent(map[], s.operations.table[k].clock)
    {}
  }

  /** Restoring a version completes exactly when no stored update or delete of its entity is
      concurrent with the empty clock; when it fails, one conflict is recorded and nothing else changes. */
  lemma RestoreExactly(s: State, source: string, opId: string, conflictId: string, versionId: string, now: int)
    requires source in s.versions.table
    ensures var v := s.versions.table[source];
            var (after, outcome) := RestoreStep(s, source, opId, conflictId, versionId, now);
            && (outcome == Restored(versionId) <==> Restorable(s, v))
            && (outcome != Restored(versionId) ==>
                  var detection := DetectAgainst(s, RestoreOp(v, opId, now));
                  && outcome == KeyError && detection.Some?
                  && after == s.(conflicts := s.conflicts[conflictId := Opened(detection.value)]))
  {
    var v := s.versions.table[source];
    AcceptedWhenUndisputed(s, RestoreOp(v, opId, now));
    RestoreClashes(s, v, opId, now);
  }

  lemma SnapshotIsAddedLast(versions: Dict<Version>, snapshot: Version)
    requires snapshot.versionId !in versions.table
    ensures VersionsOf(Values(Put(versions, snapshot.versionId, snapshot)), snapshot.entityId) ==
            VersionsOf(Values(versions), snapshot.entityId) + [snapshot]
    ensures forall id :: id != snapshot.entityId ==>
              VersionsOf(Values(Put(versions, snapshot.versionId, snapshot)), id) == VersionsOf(Values(versions), id)
  {
    PutAppends(versions, snapshot.versionId, snapshot);
    var vs := Values(versions);
    assert (vs + [snapshot])[..|vs|] == vs;
  }

  lemma RestoredTables(s: State, source: string, opId: string, conflictId: string, versionId: string, now: int)
    requires source in s.versions.table
    requires RestoreStep(s, source, opId, conflictId, versionId, now).1 == Restored(versionId)
    ensures var op := RestoreOp(s.versions.table[source], opId, now);
            RestoreStep(s, source, opId, conflictId, versionId, now).0 ==
            Effect(s, ApplyOp(op, SnapshotOf(s.versions, op, versionId, now), now))
  {
  }

  /** A completed restore adds one version of the entity, after all others, holding the restored
      data, with the previously newest version as its parent. */
  lemma RestoreAddsVersion(s: State, source: string, opId: string, conflictId: string, versionId: string, now: int)
    requires source in s.versions.table && versionId !in s.versions.table
    requires RestoreStep(s, source, opId, conflictId, versionId, now).1 == Restored(versionId)
    ensures var v := s.versions.table[source];
            var after := RestoreStep(s, source, opId, conflictId, versionId, now).0;
            var before := VersionsOf(Values(s.versions), v.entityId);
            && before != []
            && after.conflicts == s.conflicts
            && VersionsOf(Values(after.versions), v.entityId) ==
                 before + [Version(versionId, v.entityType, v.entityId, Some(Newest(before).versionId),
                                   now, "system", Update, v.data)]
  {
    var v := s.versions.table[source];
    var snapshot := SnapshotOf(s.versions, RestoreOp(v, opId, now), versionId, now);
    RestoredTables(s, source, opId, conflictId, versionId, now);
    SnapshotIsAddedLast(s.versions, snapshot);
    ValuesOfTable(s.versions);
    VersionsOfMembers(Values(s.versions), v.entityId);
    assert v in VersionsOf(Values(s.versions), v.entityId);
  }

  /** With natural-number clocks: exactly when no stored update or delete has an all-zero clock. */
  lemma RestoreExactlyNatural(s: State, source: string, opId: string, conflictId: string, versionId: string, now: int)
    requires source in s.versions.table
    requires forall k :: k in s.operations.table ==> NoNegative(s.operations.table[k].clock)
    ensures RestoreStep(s, source, opId, conflictId, versionId, now).1 == Restored(versionId) <==>
            forall k :: k in s.operations.table && s.operations.table[k].kind in {Update, Delete} &&
                        OnEntityOf(s.operations.table[k], s.versions.table[source]) ==>
              !AllZero(s.operations.table[k].clock)
  {
    RestoreExactly(s, source, opId, conflictId, versionId, now);
    forall k | k in s.operations.table
      ensures Concurrent(map[], s.operations.table[k].clock) <==> AllZero(s.operations.table[k].clock)
    {
      ConcurrentWithEmpty(s.operations.table[k].clock);
    }
  }

  /** Under `id` an update of the entity with an empty clock is stored: no restore can pass it. */
  predicate Spent(s: State, id: string, entityType: string, entityId: string)
  {
    id in s.operations.table && IsUpdateOf(s.operations.table[id], entityType, entityId) &&
    s.operations.table[id].clock == map[]
  }

  /** The call stores a client's operation under `id`. */
  predicate StoresUnder(s: State, e: Event, id: string)
  {
    e.Submit? && e.op.id == id && Step(s, e).1.Applied?
  }

  lemma EffectKeepsSpent(s: State, ch: Change, id: string, entityType: string, entityId: string)
    requires Spent(s, id, entityType, entityId) && (ch.ApplyOp? ==> ch.op.id != id)
    ensures Spent(Effect(s, ch), id, entityType, entityId)
  {
  }

  lemma StepKeepsSpent(s: State, e: Event, id: string, entityType: string, entityId: string)
    requires Spent(s, id, entityType, entityId) && FreshIds(s, e) && !StoresUnder(s, e, id)
    ensures Spent(Step(s, e).0, id, entityType, entityId)
  {
    var ch := StepIsEffect(s, e);
    EffectKeepsSpent(s, ch, id, entityType, entityId);
  }

  lemma RestoreSpends(s: State, e: Event)
    requires e.Restore? && e.source in s.versions.table && Step(s, e).1.Restored?
    ensures var v := s.versions.table[e.source]; Spent(Step(s, e).0, e.opId, v.entityType, v.entityId)
  {
    var ch := StepIsEffect(s, e);
  }

  lemma SpentMeansFailure(s: State, e: Event, id: string)
    requires e.Restore? && e.source in s.versions.table
    requires var v := s.versions.table[e.source]; Spent(s, id, v.entityType, v.entityId)
    ensures Step(s, e).1 == KeyError
  {
    var v := s.versions.table[e.source];
    HappensBeforeIsStrictOrder(map[], map[], map[]);
    assert Clashes(RestoreOp(v, e.opId, e.now), s.operations.table[id]);
    AcceptedWhenUndisputed(s, RestoreOp(v, e.opId, e.now));
  }

  /** No call from the `i`-th on and before the `j`-th stores a client's operation under `id`. */
  ghost predicate Untouched(events: seq<Event>, i: nat, j: nat, id: string)
    requires j <= |events|
  {
    forall k: nat :: i <= k < j ==> !StoresUnder(Run(events[..k]), events[k], id)
  }

  lemma SpentAfter(events: seq<Event>, i: nat, j: nat, id: string, entityType: string, entityId: string)
    requires FreshRun(events) && i <= j <= |events| && Untouched(events, i, j, id)
    requires Spent(Run(events[..i]), id, entityType, entityId)
    ensures Spent(Run(events[..j]), id, entityType, entityId)
  {
    var holds := s => Spent(s, id, entityType, entityId);
    forall k: nat | i <= k < j && HoldsAt(events, k, holds) ensures HoldsAt(events, k + 1, holds) {
      FreshAt(events, k);
      RunOneMore(events, k);
      StepKeepsSpent(Run(events[..k]), events[k], id, entityType, entityId);
    }
    Persists(events, i, j, holds);
  }

  lemma RestoreSpendsInRun(events: seq<Event>, i: nat)
    requires i < |events| && events[i].Restore? && events[i].source in Run(events[..i]).versions.table
    requires OutcomeAt(events, i).Restored?
    ensures var v := Run(events[..i]).versions.table[events[i].source];
            Spent(Run(events[..i + 1]), events[i].opId, v.entityType, v.entityId)
  {
    RestoreSpends(Run(events[..i]), events[i]);
    RunOneMore(events, i);
  }

  /** At most one restore per entity completes: after one has, a later one on the same entity completes
      only if in between a client's operation was stored under the very id of the restoring one, and then
      exactly if nothing else stored stands in its way; otherwise it fails. */
  lemma OneRestorePerEntity(events: seq<Event>, i: nat, j: nat)
    requires FreshRun(events) && i < j < |events|
    requires events[i].Restore? && events[i].source in Run(events[..i]).versions.table
    requires events[j].Restore? && events[j].source in Run(events[..j]).versions.table
    requires var first := Run(events[..i]).versions.table[events[i].source];
             var second := Run(events[..j]).versions.table[events[j].source];
             first.entityType == second.entityType && first.entityId == second.entityId
    requires OutcomeAt(events, i).Restored?
    ensures var s := Run(events[..j]);
            OutcomeAt(events, j) ==
            if Restorable(s, s.versions.table[events[j].source]) then Restored(events[j].versionId) else KeyError
    ensures OutcomeAt(events, j).Restored? ==> !Untouched(events, i + 1, j, events[i].opId)
  {
    var v := Run(events[..i]).versions.table[events[i].source];
    RestoreOutcome(Run(events[..j]), events[j]);
    RestoreSpendsInRun(events, i);
    if Untouched(events, i + 1, j, events[i].opId) {
      SpentAfter(events, i + 1, j, events[i].opId, v.entityType, v.entityId);
      SpentMeansFailure(Run(events[..j]), events[j], events[i].opId);
    }
  }

  lemma RestoreOutcome(s: State, e: Event)
    requires e.Restore? && e.source in s.versions.table
    ensures Step(s, e).1 == if Restorable(s, s.versions.table[e.source]) then Restored(e.versionId) else KeyError
  {
    RestoreExactly(s, e.source, e.opId, e.conflictId, e.versionId, e.now);
  }
}
