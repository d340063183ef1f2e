/** The sync service itself: an object whose tables hold operations, versions, conflict records and
  client states.  Each method is proved to take exactly the step that SyncModel gives for the call;
  an exception is an outcome, and what was changed before it was raised stays changed. */
module SyncServices {
  import opened Wrappers
  import opened OrderedDict
  import opened VectorClocks
  import opened DeepMerge
  import opened Conflicts
  import opened SyncModel
  import opened VersionGraph

  datatype Statistics = Statistics(operations: nat, conflicts: nat, resolved: nat, pending: int, successRate: real)

  /** Conflicts are counted against the operations stored, not against those submitted. */
  function SuccessRate(operations: nat, conflicts: nat): real
  {
    (operations - conflicts) as real / (if operations > 1 then operations else 1) as real * 100.0
  }

  /** It is the hundredfold of what is stored beyond the conflicts, for each stored operation. */
  lemma SuccessRateInNumbers(operations: nat, conflicts: nat)
    ensures SuccessRate(operations, conflicts) * (if operations == 0 then 1 else operations) as real ==
            100.0 * (operations - conflicts) as real
  {
    var n := (if operations > 1 then operations else 1) as real;
    var x := (operations - conflicts) as real / n;
    assert x * n == (operations - conflicts) as real;
    assert x * 100.0 * n == 100.0 * (x * n);
  }

  /** So the rate is a percentage exactly when conflicts do not outnumber the stored operations. */
  lemma SuccessRateIsPercentageExactly(operations: nat, conflicts: nat)
    ensures 0.0 <= SuccessRate(operations, conflicts) <= 100.0 <==> conflicts <= operations
    ensures SuccessRate(operations, conflicts) == 100.0 <==> conflicts == 0 && operations > 0
  {
    var n := (if operations > 1 then operations else 1) as real;
    var x := (operations - conflicts) as real / n;
    assert x * n == (operations - conflicts) as real;
    if conflicts <= operations {
      assert x >= 0.0 && x <= 1.0;
    } else {
      assert x < 0.0;
    }
  }

  class SyncService {
    var operations: Dict<SyncOperation>
    var versions: Dict<Version>
    var conflicts: map<string, Conflict>
    var syncStates: map<string, Client>
    ghost var applied: seq<SyncOperation>  // every operation ever applied, in order

    ghost function View(): State
      reads this
    {
      State(operations, versions, conflicts, syncStates, applied)
    }

    constructor ()
      ensures View() == INIT
    {
      operations, versions := Raw([], map[]), Raw([], map[]);
      conflicts, syncStates, applied := map[], map[], [];
    }

    method UpdateSyncState(clientId: string, clock: Clock, now: int)
      modifies this`syncStates
      ensures syncStates == Synced(old(syncStates), clientId, clock, now)
    {
      if clientId !in syncStates {
        syncStates := syncStates[clientId := Client(map[], None)];
      }
      var vectorClock := new VectorClock(syncStates[clientId].clock);
      vectorClock.Merge(clock);
      syncStates := syncStates[clientId := Client(vectorClock.clock, Some(now))];
    }

    method CreateVersionSnapshot(op: SyncOperation, versionId: string, now: int) returns (version: Version)
      modifies this`versions
      ensures version == SnapshotOf(old(versions), op, versionId, now)
      ensures versions == Put(old(versions), versionId, version)
    {
      var existing := VersionsOf(Values(versions), op.entityId);
      var parent: Option<string> := None;
      if existing != [] {
        parent := Some(Newest(existing).versionId);
      }
      version := Version(versionId, op.entityType, op.entityId, parent, now, op.clientId, op.kind, op.data);
      versions := Put(versions, versionId, version);
    }

    method SubmitOperation(op: SyncOperation, conflictId: string, versionId: string, now: int)
      returns (outcome: Outcome)
      modifies this
      ensures (View(), outcome) == SubmitStep(old(View()), op, conflictId, versionId, now)
    {
      var existing := OpsOn(Values(operations), op);
      var conflict := DetectConflict(op, existing);
      if conflict.Some? {
        conflicts := conflicts[conflictId := Conflict(conflict.value, Pending, None, None, None)];
        return Conflicted(conflictId);
      }
      ApplyOperation(op, versionId, now);
      return Applied(versionId);
    }

    /** Stores an accepted operation, merges its clock and snapshots it. */
    method ApplyOperation(op: SyncOperation, versionId: string, now: int)
      modifies this`operations, this`versions, this`syncStates, this`applied
      ensures View() == Effect(old(View()), ApplyOp(op, SnapshotOf(old(versions), op, versionId, now), now))
    {
      operations := Put(operations, op.id, op);
      applied := applied + [op];
      UpdateSyncState(op.clientId, op.clock, now);
      var _ := CreateVersionSnapshot(op, versionId, now);
    }

    method ResolveConflict(conflictId: string, strategy: Strategy, resolution: Option<Document>, now: int)
      returns (outcome: Outcome)
      modifies this`conflicts, this`syncStates
      ensures (View(), outcome) == ResolveStep(old(View()), conflictId, strategy, resolution, now)
    {
      if conflictId !in conflicts { return ValueError; }
      var conflict := conflicts[conflictId];
      var result: Resolution;
      match strategy {
        case Lww =>
          if conflict.detection.operations == [] { return ValueError; }
          var winner := Winner(conflict.detection.operations);
          result := LwwResolution(winner.id, winner.data);
        case Crdt =>
          var data := ResolveCrdt(conflict.detection.operations);
          result := CrdtResolution(data);
        case Manual =>
          if resolution.None? || resolution.value == EMPTY { return ValueError; }
          result := ManualResolution(resolution.value);
        case Unknown(_) => return ValueError;
      }
      conflicts := conflicts[conflictId :=
        conflict.(status := Resolved, strategy := Some(strategy), resolution := Some(result), resolvedAt := Some(now))];
      if strategy == Lww {
        if result.winningOperation !in operations.table { return KeyError; }
        var winner := operations.table[result.winningOperation];
        UpdateSyncState(winner.clientId, winner.clock, now);
      }
      return ConflictResolved;
    }

    /** `entityId` only labels the answer; the version alone says what is restored. */
    method RestoreVersion(entityId: string, source: string, opId: string, conflictId: string, versionId: string,
        now: int)
      returns (outcome: Outcome)
      modifies this
      ensures (View(), outcome) == RestoreStep(old(View()), source, opId, conflictId, versionId, now)
    {
      if source !in versions.table { return ValueError; }
      var version := versions.table[source];
      var restore := SyncOperation(opId, "system", version.entityType, version.entityId, Update, now, map[],
                                   version.data);
      var result := SubmitOperation(restore, conflictId, versionId, now);
      if !result.Applied? { return KeyError; }
      return Restored(result.version);
    }

    method GetSyncStatus(clientId: string) returns (state: Client)
      modifies this`syncStates
      ensures View() == StatusStep(old(View()), clientId)
      ensures clientId in syncStates && state == syncStates[clientId]
    {
      if clientId !in syncStates {
        syncStates := syncStates[clientId := Client(map[], None)];
      }
      state := syncStates[clientId];
    }

    /** The entity's versions, each as often as it is there, newest first, and those of one timestamp in
        the order of their creation: `HistoryIsDetermined` says that this leaves one answer. */
    method GetVersionHistory(entityId: string) returns (history: seq<Version>)
      ensures multiset(history) == multiset(Snapshots(View(), entityId))
      ensures NewestFirst(history)
      ensures forall t :: WithTime(history, t) == WithTime(Snapshots(View(), entityId), t)
    {
      var existing := VersionsOf(Values(versions), entityId);
      history := SortNewestFirst(existing);
      HistoryIsSorted(existing, 0);
      forall t ensures WithTime(history, t) == WithTime(existing, t) { HistoryIsSorted(existing, t); }
    }

    method GetSyncStatistics() returns (stats: Statistics)
      ensures stats.operations == |operations.table|
      ensures stats.conflicts == |conflicts| == stats.resolved + stats.pending
      ensures stats.resolved == |set k | k in conflicts && conflicts[k].status == Resolved|
      ensures stats.pending == |set k | k in conflicts && conflicts[k].status == Pending|
      ensures stats.successRate == SuccessRate(|operations.table|, |conflicts|)
    {
      var todo, resolved := conflicts.Keys, 0;
      ghost var done: set<string> := {};
      while todo != {}
        invariant todo <= conflicts.Keys
        invariant forall k :: k in done <==> k in conflicts && k !in todo && conflicts[k].status == Resolved
        invariant resolved == |done|
      {
        var k :| k in todo;
        todo := todo - {k};
        if conflicts[k].status == Resolved {
          resolved := resolved + 1;
          done := done + {k};
        }
      }
      CountsByStatus(conflicts, done);
      stats := Statistics(|operations.table|, |conflicts|, resolved, |conflicts| - resolved,
                          SuccessRate(|operations.table|, |conflicts|));
    }
  }

  lemma CountsByStatus(conflicts: map<string, Conflict>, done: set<string>)
    requires forall k :: k in done <==> k in conflicts && conflicts[k].status == Resolved
    ensures |set k | k in conflicts && conflicts[k].status == Resolved| == |done| <= |conflicts|
    ensures |set k | k in conflicts && conflicts[k].status == Pending| == |conflicts| - |done|
  {
    assert done == set k | k in conflicts && conflicts[k].status == Resolved;
    var open := conflicts.Keys - done;
    assert open == set k | k in conflicts && conflicts[k].status == Pending;
    assert done <= conflicts.Keys && |open| == |conflicts.Keys| - |done| && |conflicts| == |conflicts.Keys|;
  }
}
