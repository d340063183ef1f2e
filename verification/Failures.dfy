/** Runs from a new service on which it fails: they show that the failing sides of the exact conditions in
  SyncProperties.dfy are reached. */
module Failures {
  import opened OrderedDict
  import opened VectorClocks
  import opened Conflicts
  import opened SyncModel
  import opened SyncProperties

  lemma Accepts(s: State, op: SyncOperation, conflictId: string, versionId: string, now: int)
    requires Undisputed(s, op)
    ensures SubmitStep(s, op, conflictId, versionId, now) ==
            (Effect(s, ApplyOp(op, SnapshotOf(s.versions, op, versionId, now), now)), Applied(versionId))
  {
    AcceptedWhenUndisputed(s, op);
  }

  // ---------------------------------------------------------------------------------------------
  // Last writer wins
  // ---------------------------------------------------------------------------------------------

  /** Two updates of one entity with equal clocks, the second one later. */
  predicate Rivals(a: SyncOperation, b: SyncOperation)
  {
    && a.kind == Update && b.kind == Update && SameEntity(b, a) && a.clock == b.clock
    && a.id != b.id && a.timestamp < b.timestamp
  }

  /** The tables after the first operation on a new service. */
  lemma FirstTables(op: SyncOperation, version: Version, now: int)
    ensures var s := Effect(INIT, ApplyOp(op, version, now));
            && Values(s.operations) == [op] && s.operations.table == map[op.id := op]
            && s.versions.table == map[version.versionId := version] && s.conflicts == map[]
  {
    PutAppends(INIT.operations, op.id, op);
  }

  lemma FirstIsApplied(e: Event)
    requires e.Submit?
    ensures FreshIds(INIT, e) && Step(INIT, e).1 == Applied(e.versionId)
    ensures Values(Step(INIT, e).0.operations) == [e.op] && Step(INIT, e).0.operations.table == map[e.op.id := e.op]
    ensures var snapshot := SnapshotOf(INIT.versions, e.op, e.versionId, e.now);
            Step(INIT, e).0.versions.table == map[e.versionId := snapshot] && Step(INIT, e).0.conflicts == map[]
  {
    var version := SnapshotOf(INIT.versions, e.op, e.versionId, e.now);
    Accepts(INIT, e.op, e.conflictId, e.versionId, e.now);
    FirstTables(e.op, version, e.now);
    assert Step(INIT, e).0 == Effect(INIT, ApplyOp(e.op, version, e.now));
  }

  lemma RivalIsDetected(a: SyncOperation, b: SyncOperation)
    requires Rivals(a, b)
    ensures Detect(b, OpsOn([a], b)).Some? && Detect(b, OpsOn([a], b)).value.operations == [b, a]
  {
    assert [a][..0] == [];
    assert OpsOn([a], b) == [a];
    HappensBeforeIsStrictOrder(a.clock, a.clock, a.clock);
    assert ClashList(b, [a]) == [ClashOf(b, a)];
  }

  lemma SecondIsRejected(s: State, a: SyncOperation, e: Event)
    requires e.Submit? && Rivals(a, e.op) && Values(s.operations) == [a]
    requires s.conflicts == map[] && e.versionId !in s.versions.table
    ensures FreshIds(s, e) && Step(s, e).1 == Conflicted(e.conflictId)
    ensures Step(s, e).0.operations == s.operations && e.conflictId in Step(s, e).0.conflicts
    ensures Step(s, e).0.conflicts[e.conflictId].detection.operations == [e.op, a]
  {
    RivalIsDetected(a, e.op);
  }

  lemma RejectedWins(s: State, e: Event, a: SyncOperation, b: SyncOperation)
    requires e.ResolveConflict? && e.strategy == Lww && Rivals(a, b)
    requires e.id in s.conflicts && s.conflicts[e.id].detection.operations == [b, a]
    requires b.id !in s.operations.table
    ensures Step(s, e).1 == KeyError && IsResolved(Step(s, e).0, e.id)
  {
    assert [b, a][..1] == [b];
    assert Winner([b, a]) == b;
  }

  /** Last-writer-wins fails: whenever two clients send a new service two rivals, the second is rejected,
      wins, and is not found; its conflict is resolved all the same. */
  lemma LwwCanFail(e0: Event, e1: Event, e2: Event)
    requires e0.Submit? && e1.Submit? && Rivals(e0.op, e1.op) && e0.versionId != e1.versionId
    requires e2.ResolveConflict? && e2.id == e1.conflictId && e2.strategy == Lww
    ensures var s1 := Step(INIT, e0).0;
            var s2 := Step(s1, e1).0;
            && FreshIds(INIT, e0) && FreshIds(s1, e1)
            && Step(INIT, e0).1 == Applied(e0.versionId) && Step(s1, e1).1 == Conflicted(e2.id)
            && Step(s2, e2).1 == KeyError && IsResolved(Step(s2, e2).0, e2.id)
  {
    FirstIsApplied(e0);
    var s1 := Step(INIT, e0).0;
    SecondIsRejected(s1, e0.op, e1);
    RejectedWins(Step(s1, e1).0, e2, e0.op, e1.op);
  }

  // ---------------------------------------------------------------------------------------------
  // Restoring twice
  // ---------------------------------------------------------------------------------------------

  /** Only `u` and the operations under `others` touch the entity of `u`. */
  ghost predicate Touches(ops: map<string, SyncOperation>, u: SyncOperation, others: set<string>)
  {
    forall k :: k in ops ==> if k in others then SameEntity(ops[k], u) else ops[k] == u || !SameEntity(ops[k], u)
  }

  ghost predicate Alone(s: State, u: SyncOperation, source: string, others: set<string>)
  {
    && Touches(s.operations.table, u, others)
    && source in s.versions.table && OnEntityOf(u, s.versions.table[source])
  }

  lemma RestoreTouches(ops: map<string, SyncOperation>, u: SyncOperation, op: SyncOperation)
    requires Touches(ops, u, {}) && SameEntity(op, u)
    ensures Touches(ops[op.id := op], u, {op.id})
  {
  }

  lemma CreationTouches(ops: map<string, SyncOperation>, u: SyncOperation, op: SyncOperation)
    requires Touches(ops, u, {op.id}) && !SameEntity(op, u)
    ensures Touches(ops[op.id := op], u, {})
  {
  }

  lemma FirstUpdate(e: Event)
    requires e.Submit?
    ensures FreshIds(INIT, e) && Alone(Step(INIT, e).0, e.op, e.versionId, {})
    ensures Step(INIT, e).0.operations.table.Keys == {e.op.id}
    ensures Step(INIT, e).0.versions.table.Keys == {e.versionId} && Step(INIT, e).0.conflicts == map[]
  {
    FirstIsApplied(e);
  }

  lemma AppliedTables(s: State, op: SyncOperation, version: Version, now: int)
    ensures var after := Effect(s, ApplyOp(op, version, now));
            && after.operations.table == s.operations.table[op.id := op]
            && after.versions.table == s.versions.table[version.versionId := version]
            && after.conflicts == s.conflicts
  {
  }

  lemma KeysWith<V>(m: map<string, V>, key: string, value: V)
    ensures m[key := value].Keys == m.Keys + {key}
  {
  }

  lemma RestoreLeavesAlone(s: State, u: SyncOperation, source: string, op: SyncOperation, version: Version, now: int)
    requires Alone(s, u, source, {}) && SameEntity(op, u) && version.versionId !in s.versions.table
    ensures var after := Effect(s, ApplyOp(op, version, now));
            && Alone(after, u, source, {op.id}) && after.conflicts == s.conflicts
            && after.operations.table.Keys == s.operations.table.Keys + {op.id}
            && after.versions.table.Keys == s.versions.table.Keys + {version.versionId}
  {
    RestoreTouches(s.operations.table, u, op);
    AppliedTables(s, op, version, now);
    KeysWith(s.operations.table, op.id, op);
    KeysWith(s.versions.table, version.versionId, version);
  }

  /** While only `u` touches the entity, and happens after the empty clock, a restore completes. */
  lemma RestoreCompletes(s: State, e: Event, u: SyncOperation)
    requires e.Restore? && FreshIds(s, e) && Alone(s, u, e.source, {}) && !Concurrent(map[], u.clock)
    ensures Step(s, e).1 == Restored(e.versionId) && Step(s, e).0.conflicts == s.conflicts
    ensures Alone(Step(s, e).0, u, e.source, {e.opId})
    ensures Step(s, e).0.operations.table.Keys == s.operations.table.Keys + {e.opId}
    ensures Step(s, e).0.versions.table.Keys == s.versions.table.Keys + {e.versionId}
  {
    RestoreExactly(s, e.source, e.opId, e.conflictId, e.versionId, e.now);
    RestoredTables(s, e.source, e.opId, e.conflictId, e.versionId, e.now);
    var op := RestoreOp(s.versions.table[e.source], e.opId, e.now);
    RestoreLeavesAlone(s, u, e.source, op, SnapshotOf(s.versions, op, e.versionId, e.now), e.now);
  }

  lemma CreationLeavesAlone(s: State, u: SyncOperation, source: string, op: SyncOperation, version: Version, now: int)
    requires Alone(s, u, source, {op.id}) && !SameEntity(op, u) && version.versionId !in s.versions.table
    ensures var after := Effect(s, ApplyOp(op, version, now));
            && Alone(after, u, source, {}) && after.conflicts == s.conflicts
            && after.operations.table.Keys == s.operations.table.Keys + {op.id}
            && after.versions.table.Keys == s.versions.table.Keys + {version.versionId}
  {
    CreationTouches(s.operations.table, u, op);
    AppliedTables(s, op, version, now);
    KeysWith(s.operations.table, op.id, op);
    KeysWith(s.versions.table, version.versionId, version);
  }

  /** Creating another entity under the id of the restoring operation removes that operation. */
  lemma CreationOverwrites(s: State, e: Event, u: SyncOperation, source: string)
    requires e.Submit? && FreshIds(s, e) && e.op.kind == Create && !SameEntity(e.op, u)
    requires Alone(s, u, source, {e.op.id})
    ensures Step(s, e).1 == Applied(e.versionId) && Step(s, e).0.conflicts == s.conflicts
    ensures Alone(Step(s, e).0, u, source, {})
    ensures Step(s, e).0.operations.table.Keys == s.operations.table.Keys + {e.op.id}
    ensures Step(s, e).0.versions.table.Keys == s.versions.table.Keys + {e.versionId}
  {
    var version := SnapshotOf(s.versions, e.op, e.versionId, e.now);
    Accepts(s, e.op, e.conflictId, e.versionId, e.now);
    CreationLeavesAlone(s, u, source, e.op, version, e.now);
    assert Step(s, e).0 == Effect(s, ApplyOp(e.op, version, e.now));
  }

  lemma RestoredAgain(s: State, e1: Event, e2: Event, e3: Event, u: SyncOperation)
    requires e1.Restore? && e2.Submit? && e3.Restore? && e3.source == e1.source
    requires e2.op.kind == Create && !SameEntity(e2.op, u) && e2.op.id == e1.opId
    requires Alone(s, u, e1.source, {}) && !Concurrent(map[], u.clock) && s.conflicts == map[]
    requires s.operations.table.Keys !! {e1.opId, e3.opId} && e1.opId != e3.opId
    requires s.versions.table.Keys !! {e1.versionId, e2.versionId, e3.versionId}
    requires e1.versionId != e2.versionId && e1.versionId != e3.versionId && e2.versionId != e3.versionId
    ensures var s2 := Step(s, e1).0;
            var s3 := Step(s2, e2).0;
            && FreshIds(s, e1) && FreshIds(s2, e2) && FreshIds(s3, e3)
            && Step(s, e1).1 == Restored(e1.versionId) && Step(s3, e3).1 == Restored(e3.versionId)
  {
    RestoreCompletes(s, e1, u);
    var s2 := Step(s, e1).0;
    CreationOverwrites(s2, e2, u, e1.source);
    RestoreCompletes(Step(s2, e2).0, e3, u);
  }

  /** The exception of `OneRestorePerEntity` is real: a client that creates some other entity under
      the id of the restoring operation overwrites it, and the entity can be restored again. */
  lemma RestoreCanRepeat(e0: Event, e1: Event, e2: Event, e3: Event)
    requires e0.Submit? && e1.Restore? && e2.Submit? && e3.Restore?
    requires e0.op.kind == Update && !Concurrent(map[], e0.op.clock)
    requires e1.source == e0.versionId == e3.source
    requires e2.op.kind == Create && !SameEntity(e2.op, e0.op) && e2.op.id == e1.opId
    requires e0.op.id != e1.opId && e0.op.id != e3.opId && e1.opId != e3.opId
    requires e0.versionId !in {e1.versionId, e2.versionId, e3.versionId}
    requires e1.versionId != e2.versionId && e1.versionId != e3.versionId && e2.versionId != e3.versionId
    ensures var s1 := Step(INIT, e0).0;
            var s2 := Step(s1, e1).0;
            var s3 := Step(s2, e2).0;
            && FreshIds(INIT, e0) && FreshIds(s1, e1) && FreshIds(s2, e2) && FreshIds(s3, e3)
            && Step(s1, e1).1 == Restored(e1.versionId) && Step(s3, e3).1 == Restored(e3.versionId)
  {
    FirstUpdate(e0);
    RestoredAgain(Step(INIT, e0).0, e1, e2, e3, e0.op);
  }
}
