/** What every call of the service leaves behind, spelled out: each statement names the entries of the
  tables themselves and not the functions that compute them. */
module Calls {
  import opened Wrappers
  import opened OrderedDict
  import opened VectorClocks
  import opened DeepMerge
  import opened Conflicts
  import opened SyncModel
  import opened SyncProperties
  import opened VersionGraph

  // ---------------------------------------------------------------------------------------------
  // Which operations stand in the way
  // ---------------------------------------------------------------------------------------------

  /** Two operations on one entity, an update and an update or delete, of which neither saw the other. */
  ghost predicate Disputes(a: SyncOperation, b: SyncOperation)
  {
    && a.entityType == b.entityType && a.entityId == b.entityId
    && ((a.kind == Update && b.kind == Update) || (a.kind == Update && b.kind == Delete)
        || (a.kind == Delete && b.kind == Update))
    && (SameEntries(a.clock, b.clock) || (!Below(a.clock, b.clock) && !Below(b.clock, a.clock)))
  }

  lemma ClashesExactly(a: SyncOperation, b: SyncOperation)
    ensures Clashes(a, b) <==> Disputes(a, b)
  {
    EqualClocksAreConcurrent(a.clock, b.clock);
  }

  /** Looking only at the operations on the entity leaves out none that clashes. */
  lemma {:induction false} ClashesOnEntity(op: SyncOperation, ops: seq<SyncOperation>)
    ensures ClashList(op, OpsOn(ops, op)) == ClashList(op, ops)
  {
    if ops == [] {
    } else {
      var init, last := ops[..|ops| - 1], ops[|ops| - 1];
      ClashesOnEntity(op, init);
      if SameEntity(op, last) {
        assert (OpsOn(init, op) + [last])[..|OpsOn(init, op)|] == OpsOn(init, op);
      }
    }
  }

  /** The record of a rejected operation: it names the entity, lists the operation and then those stored
      ones that dispute it, in the order they were stored, each with the kind of the dispute. */
  ghost predicate IsRecordOf(d: Detection, op: SyncOperation, stored: seq<SyncOperation>)
  {
    && d.entityType == op.entityType && d.entityId == op.entityId
    && |d.operations| >= 2 && d.operations[0] == op
    && (exists picks ::
          && Selects(stored, d.operations[1..], picks)
          && forall i :: 0 <= i < |stored| ==> (i in picks <==> Disputes(op, stored[i])))
    && |d.details| == |d.operations| - 1
    && (forall k :: 0 <= k < |d.details| ==>
          d.details[k] == Clash(DisputeType(op, d.operations[k + 1]), op, d.operations[k + 1]))
    && d.conflictType == d.details[0].conflictType
  }

  function DisputeType(a: SyncOperation, b: SyncOperation): ConflictType
  {
    if a.kind == Update && b.kind == Update then ConcurrentModification else DeleteUpdate
  }

  lemma DetailsOf(op: SyncOperation, ops: seq<SyncOperation>)
    ensures forall k :: 0 <= k < |ClashList(op, ops)| ==>
              var e := ClashList(op, ops)[k].existing; ClashList(op, ops)[k] == Clash(DisputeType(op, e), op, e)
  {
    forall k | 0 <= k < |ClashList(op, ops)|
      ensures var e := ClashList(op, ops)[k].existing; ClashList(op, ops)[k] == Clash(DisputeType(op, e), op, e)
    {
      ClashTypes(op, ops, k);
    }
  }

  lemma DetectionIsRecord(s: State, op: SyncOperation)
    ensures DetectAgainst(s, op).Some? ==> IsRecordOf(DetectAgainst(s, op).value, op, Values(s.operations))
    ensures DetectAgainst(s, op).Some? <==>
            exists k :: k in s.operations.table && Disputes(op, s.operations.table[k])
  {
    var stored := Values(s.operations);
    ClashesOnEntity(op, stored);
    var picks := ClashListPicks(op, stored);
    DetailsOf(op, stored);
    forall o ensures Clashes(op, o) <==> Disputes(op, o) { ClashesExactly(op, o); }
    AcceptedWhenUndisputed(s, op);
    var d := DetectAgainst(s, op);
    if d.Some? {
      assert d.value.operations[1..] == Existing(ClashList(op, stored));
      assert Selects(stored, d.value.operations[1..], picks);
    }
  }

  // ---------------------------------------------------------------------------------------------
  // Submitting
  // ---------------------------------------------------------------------------------------------

  /** `parent` is the newest version of the entity, the first such when several tie, or there is none. */
  ghost predicate IsParent(versions: seq<Version>, entityId: string, parent: Option<string>)
  {
    if exists v :: v in versions && v.entityId == entityId then
      exists k :: 0 <= k < |versions| && versions[k].entityId == entityId && parent == Some(versions[k].versionId)
        && (forall j :: 0 <= j < |versions| && versions[j].entityId == entityId ==>
              versions[j].timestamp <= versions[k].timestamp
              && (j < k ==> versions[j].timestamp < versions[k].timestamp))
    else parent == None
  }

  lemma ParentIsNewest(versions: seq<Version>, entityId: string)
    ensures IsParent(versions, entityId, ParentAfter(VersionsOf(versions, entityId)))
  {
    var own := VersionsOf(versions, entityId);
    var picks := VersionsOfPicks(versions, entityId);
    VersionsOfMembers(versions, entityId);
    if own != [] {
      var n := NewestAt(own);
      assert own[n] in own;
      var k := picks[n];
      forall j | 0 <= j < |versions| && versions[j].entityId == entityId
        ensures versions[j].timestamp <= versions[k].timestamp
        ensures j < k ==> versions[j].timestamp < versions[k].timestamp
      {
        var m :| 0 <= m < |picks| && picks[m] == j;
        assert own[m] == versions[j];
        if n < m { assert picks[n] < picks[m]; }
      }
    }
  }

  /** One client's clock is raised to the entry-wise maximum with `clock` and marked synced at `now`;
      the other clients stay as they are. */
  ghost predicate ClientSynced(before: map<string, Client>, after: map<string, Client>, clientId: string,
                               clock: Clock, now: int)
  {
    && after.Keys == before.Keys + {clientId}
    && (forall c :: c in before && c != clientId ==> after[c] == before[c])
    && after[clientId].lastSyncAt == Some(now)
    && ClockRaised(if clientId in before then before[clientId].clock else map[], clock, after[clientId].clock)
  }

  ghost predicate ClockRaised(earlier: Clock, clock: Clock, later: Clock)
  {
    && later.Keys == earlier.Keys + clock.Keys
    && forall c :: c in later ==>
         later[c] == if c !in clock then earlier[c]
                     else if c in earlier then (if earlier[c] < clock[c] then clock[c] else earlier[c])
                     else if clock[c] < 0 then 0 else clock[c]
  }

  lemma SyncedExactly(clients: map<string, Client>, clientId: string, clock: Clock, now: int)
    ensures ClientSynced(clients, Synced(clients, clientId, clock, now), clientId, clock, now)
  {
  }

  /** What is stored and what is versioned when an operation is accepted. */
  ghost predicate Stored(s: State, after: State, op: SyncOperation, versionId: string, now: int)
  {
    && after.operations.table == s.operations.table[op.id := op]
    && after.operations.order ==
       (if op.id in s.operations.table then s.operations.order else s.operations.order + [op.id])
    && after.applied == s.applied + [op]
    && after.conflicts == s.conflicts
    && ClientSynced(s.clients, after.clients, op.clientId, op.clock, now)
    && exists parent :: IsParent(Values(s.versions), op.entityId, parent) &&
         var version := Version(versionId, op.entityType, op.entityId, parent, now, op.clientId, op.kind, op.data);
         && Values(after.versions) == Values(s.versions) + [version]
         && after.versions.table == s.versions.table[versionId := version]
  }

  lemma EffectStores(s: State, op: SyncOperation, versionId: string, now: int)
    requires versionId !in s.versions.table
    ensures Stored(s, Effect(s, ApplyOp(op, SnapshotOf(s.versions, op, versionId, now), now)), op, versionId, now)
  {
    var version := SnapshotOf(s.versions, op, versionId, now);
    ParentIsNewest(Values(s.versions), op.entityId);
    SyncedExactly(s.clients, op.clientId, op.clock, now);
    PutAppends(s.versions, versionId, version);
    assert version ==
           Version(versionId, op.entityType, op.entityId, version.parent, now, op.clientId, op.kind, op.data);
    assert IsParent(Values(s.versions), op.entityId, version.parent);
  }

  /** A rejected operation leaves one more pending conflict and nothing else. */
  ghost predicate Rejected(s: State, after: State, op: SyncOperation, conflictId: string)
  {
    exists d :: IsRecordOf(d, op, Values(s.operations)) &&
                after == s.(conflicts := s.conflicts[conflictId := Conflict(d, Pending, None, None, None)])
  }

  /** A submitted operation is rejected exactly when some stored one disputes it. */
  lemma SubmitCall(s: State, op: SyncOperation, conflictId: string, versionId: string, now: int)
    requires versionId !in s.versions.table
    ensures var (after, outcome) := SubmitStep(s, op, conflictId, versionId, now);
            if exists k :: k in s.operations.table && Disputes(op, s.operations.table[k])
            then outcome == Conflicted(conflictId) && Rejected(s, after, op, conflictId)
            else outcome == Applied(versionId) && Stored(s, after, op, versionId, now)
  {
    DetectionIsRecord(s, op);
    var d := DetectAgainst(s, op);
    if d.Some? {
      RejectedRecord(s, op, d.value, conflictId);
    } else {
      EffectStores(s, op, versionId, now);
    }
  }

  lemma RejectedRecord(s: State, op: SyncOperation, d: Detection, conflictId: string)
    requires IsRecordOf(d, op, Values(s.operations))
    ensures Rejected(s, Effect(s, AddConflict(conflictId, d)), op, conflictId)
  {
  }

  // ---------------------------------------------------------------------------------------------
  // Resolving
  // ---------------------------------------------------------------------------------------------

  /** Two texts agree before `i`, where the first one ends or has the smaller character. */
  ghost predicate SmallerAt(a: string, b: string, i: nat)
  {
    i <= |a| && i < |b| && (forall j :: 0 <= j < i ==> a[j] == b[j]) && (i == |a| || a[i] < b[i])
  }

  ghost predicate TextBefore(a: string, b: string)
  {
    exists i: nat :: SmallerAt(a, b, i)
  }

  lemma SmallerLater(a: string, b: string, i: nat)
    requires a != [] && b != []
    ensures SmallerAt(a, b, i + 1) <==> a[0] == b[0] && SmallerAt(a[1..], b[1..], i)
  {
    if SmallerAt(a, b, i + 1) {
      assert a[0] == b[0];
      forall j | 0 <= j < i ensures a[1..][j] == b[1..][j] { assert a[j + 1] == b[j + 1]; }
    }
    if a[0] == b[0] && SmallerAt(a[1..], b[1..], i) {
      forall j | 0 <= j < i + 1 ensures a[j] == b[j] {
        if j > 0 { assert a[1..][j - 1] == b[1..][j - 1]; }
      }
    }
  }

  lemma {:induction false} StringLessExactly(a: string, b: string)
    ensures StringLess(a, b) <==> TextBefore(a, b)
  {
    if b == [] {
    } else if a == [] {
      assert SmallerAt(a, b, 0);
    } else {
      StringLessExactly(a[1..], b[1..]);
      if i: nat :| SmallerAt(a, b, i) {
        if i > 0 { SmallerLater(a, b, i - 1); }
      }
      if a[0] < b[0] { assert SmallerAt(a, b, 0); }
      if i: nat :| SmallerAt(a[1..], b[1..], i) {
        SmallerLater(a, b, i);
      }
    }
  }

  /** `w` is the first of the operations with the latest time, and among those the last id. */
  ghost predicate Latest(ops: seq<SyncOperation>, w: int)
  {
    && 0 <= w < |ops|
    && forall j :: 0 <= j < |ops| ==>
         && ops[j].timestamp <= ops[w].timestamp
         && (ops[j].timestamp == ops[w].timestamp ==>
               !TextBefore(ops[w].id, ops[j].id) && (j < w ==> TextBefore(ops[j].id, ops[w].id)))
  }

  lemma WinnerExactly(ops: seq<SyncOperation>) returns (w: nat)
    requires ops != []
    ensures Latest(ops, w) && Winner(ops) == ops[w]
  {
    w := WinnerIsLatest(ops);
    forall j | 0 <= j < |ops| ensures !Earlier(ops[w], ops[j]) { assert ops[j] in ops; }
    forall a, b ensures StringLess(a, b) <==> TextBefore(a, b) { StringLessExactly(a, b); }
  }

  /** The record of `id` is resolved as given, and nothing else among the conflicts changes. */
  ghost predicate Resolves(s: State, after: State, id: string, strategy: Strategy, resolution: Resolution, now: int)
  {
    && id in s.conflicts
    && after.conflicts ==
       s.conflicts[id := Conflict(s.conflicts[id].detection, Resolved, Some(strategy), Some(resolution), Some(now))]
    && after.operations == s.operations && after.versions == s.versions && after.applied == s.applied
  }

  /** Last-writer-wins records the latest of the conflict's operations; if it is stored, its client is
      synced, and if not, the call raises with the conflict resolved. */
  lemma LwwCall(s: State, id: string, data: Option<Document>, now: int) returns (w: nat)
    requires id in s.conflicts && s.conflicts[id].detection.operations != []
    ensures var ops := s.conflicts[id].detection.operations;
            var (after, outcome) := ResolveStep(s, id, Lww, data, now);
            && Latest(ops, w) && Resolves(s, after, id, Lww, LwwResolution(ops[w].id, ops[w].data), now)
            && if ops[w].id in s.operations.table then
                 var winner := s.operations.table[ops[w].id];
                 outcome == ConflictResolved &&
                 ClientSynced(s.clients, after.clients, winner.clientId, winner.clock, now)
               else outcome == KeyError && after.clients == s.clients
  {
    var ops := s.conflicts[id].detection.operations;
    w := WinnerExactly(ops);
    if ops[w].id in s.operations.table {
      var winner := s.operations.table[ops[w].id];
      SyncedExactly(s.clients, winner.clientId, winner.clock, now);
    }
  }

  /** The operation has something to say about a place: a value there, or a leaf above it. */
  ghost predicate Speaks(o: SyncOperation, p: Path)
  {
    o.kind == Update && (ShapeAt(o.data, p) != Absent || Blocks(o.data, p))
  }

  /** At every place the data are those of the last update that speaks about it, and nothing where none
      does. */
  ghost predicate LastWord(ops: seq<SyncOperation>, data: Document, p: Path)
  {
    && ((forall k :: 0 <= k < |ops| ==> !Speaks(ops[k], p)) ==> ShapeAt(data, p) == Absent)
    && (forall k :: 0 <= k < |ops| && Speaks(ops[k], p) && (forall j :: k < j < |ops| ==> !Speaks(ops[j], p)) ==>
          ShapeAt(data, p) == ShapeAt(ops[k].data, p))
  }

  lemma CrdtAppend(ops: seq<SyncOperation>, last: SyncOperation)
    ensures CrdtData(ops + [last]) == if last.kind == Update then Merge(CrdtData(ops), last.data) else CrdtData(ops)
  {
    assert (ops + [last])[..|ops|] == ops;
    assert (UpdatePayloads(ops) + [last.data])[..|UpdatePayloads(ops)|] == UpdatePayloads(ops);
  }

  lemma {:induction false} CrdtLastWord(ops: seq<SyncOperation>, p: Path)
    requires p != []
    ensures LastWord(ops, CrdtData(ops), p)
  {
    if ops == [] {
    } else {
      var init, last := ops[..|ops| - 1], ops[|ops| - 1];
      assert ops == init + [last];
      CrdtLastWord(init, p);
      CrdtAppend(init, last);
      MergeShape(CrdtData(init), last.data, p);
      LastWordAppend(init, CrdtData(init), last, CrdtData(ops), p);
    }
  }

  lemma LastWordAppend(init: seq<SyncOperation>, before: Document, last: SyncOperation, after: Document, p: Path)
    requires LastWord(init, before, p)
    requires ShapeAt(after, p) == if Speaks(last, p) then ShapeAt(last.data, p) else ShapeAt(before, p)
    ensures LastWord(init + [last], after, p)
  {
    var ops := init + [last];
    forall k | 0 <= k < |ops| && Speaks(ops[k], p) && (forall j :: k < j < |ops| ==> !Speaks(ops[j], p))
      ensures ShapeAt(after, p) == ShapeAt(ops[k].data, p)
    {
      if k < |init| {
        assert !Speaks(ops[|init|], p);
        forall j | k < j < |init| ensures !Speaks(init[j], p) { assert !Speaks(ops[j], p); }
      }
    }
    if forall k :: 0 <= k < |ops| ==> !Speaks(ops[k], p) {
      assert !Speaks(ops[|init|], p);
      forall k | 0 <= k < |init| ensures !Speaks(init[k], p) { assert !Speaks(ops[k], p); }
    }
  }

  /** The deep merge records, from all operations of the conflict, the last word at every place. */
  lemma CrdtCall(s: State, id: string, data: Option<Document>, now: int) returns (merged: Document)
    requires id in s.conflicts
    ensures var (after, outcome) := ResolveStep(s, id, Crdt, data, now);
            && outcome == ConflictResolved && after.clients == s.clients
            && Resolves(s, after, id, Crdt, CrdtResolution(merged), now)
    ensures forall p :: p != [] ==> LastWord(s.conflicts[id].detection.operations, merged, p)
  {
    merged := CrdtData(s.conflicts[id].detection.operations);
    forall p | p != [] ensures LastWord(s.conflicts[id].detection.operations, merged, p) {
      CrdtLastWord(s.conflicts[id].detection.operations, p);
    }
  }

  /** A manual resolution records the data given. */
  lemma ManualCall(s: State, id: string, data: Document, now: int)
    requires id in s.conflicts && data != Dict(map[])
    ensures var (after, outcome) := ResolveStep(s, id, Manual, Some(data), now);
            && outcome == ConflictResolved && after.clients == s.clients
            && Resolves(s, after, id, Manual, ManualResolution(data), now)
  {
  }

  /** An unknown conflict, missing or empty manual data and an unknown strategy are refused, and nothing
      changes. */
  lemma RefusedResolution(s: State, id: string, strategy: Strategy, data: Option<Document>, now: int)
    requires id !in s.conflicts || strategy.Unknown? ||
             (strategy == Manual && (data == None || data == Some(Dict(map[]))))
    ensures ResolveStep(s, id, strategy, data, now) == (s, ValueError)
  {
  }

  // ---------------------------------------------------------------------------------------------
  // Restoring and asking
  // ---------------------------------------------------------------------------------------------

  /** Restoring submits an update by "system" at the current time, with an empty clock and the version's
      data; when that is rejected there is no version to report and the call raises. */
  lemma RestoreCall(s: State, source: string, opId: string, conflictId: string, versionId: string, now: int)
    requires source in s.versions.table && versionId !in s.versions.table
    ensures var v := s.versions.table[source];
            var op := SyncOperation(opId, "system", v.entityType, v.entityId, Update, now, map[], v.data);
            var (after, outcome) := RestoreStep(s, source, opId, conflictId, versionId, now);
            if exists k :: k in s.operations.table && Disputes(op, s.operations.table[k])
            then outcome == KeyError && Rejected(s, after, op, conflictId)
            else outcome == Restored(versionId) && Stored(s, after, op, versionId, now)
  {
    var v := s.versions.table[source];
    var op := SyncOperation(opId, "system", v.entityType, v.entityId, Update, now, map[], v.data);
    SubmitCall(s, op, conflictId, versionId, now);
  }

  lemma UnknownVersion(s: State, source: string, opId: string, conflictId: string, versionId: string, now: int)
    requires source !in s.versions.table
    ensures RestoreStep(s, source, opId, conflictId, versionId, now) == (s, ValueError)
  {
  }

  /** Asking for the state of an unknown client creates one with an empty clock that was never synced. */
  lemma StatusCall(s: State, clientId: string)
    ensures var after := StatusStep(s, clientId);
            && after == s.(clients := after.clients)
            && after.clients == if clientId in s.clients then s.clients else s.clients[clientId := Client(map[], None)]
  {
  }

  // ---------------------------------------------------------------------------------------------
  // A restore against a client's update
  // ---------------------------------------------------------------------------------------------

  lemma OnlyRival(stored: seq<SyncOperation>, d: Detection, u: SyncOperation, n: nat)
    requires IsRecordOf(d, u, stored) && n < |stored|
    requires forall i :: 0 <= i < |stored| ==> (Disputes(u, stored[i]) <==> i == n)
    ensures d.operations == [u, stored[n]]
  {
    var picks :| && Selects(stored, d.operations[1..], picks)
                 && forall i :: 0 <= i < |stored| ==> (i in picks <==> Disputes(u, stored[i]));
    assert forall k :: 0 <= k < |picks| ==> picks[k] in picks;
    assert picks[0] == n && picks[|picks| - 1] == n;
    assert d.operations == [u] + d.operations[1..];
  }

  /** Of two rivals the stored one wins when it is later, or as late with the later id. */
  lemma RivalsResolved(s: State, id: string, u: SyncOperation, r: SyncOperation, data: Option<Document>, now: int)
    requires id in s.conflicts && s.conflicts[id].detection.operations == [u, r]
    requires r.id in s.operations.table && u.id !in s.operations.table
    ensures var (after, outcome) := ResolveStep(s, id, Lww, data, now);
            if r.timestamp > u.timestamp || (r.timestamp == u.timestamp && TextBefore(u.id, r.id))
            then outcome == ConflictResolved && Resolves(s, after, id, Lww, LwwResolution(r.id, r.data), now)
            else outcome == KeyError && Resolves(s, after, id, Lww, LwwResolution(u.id, u.data), now)
  {
    var w := LwwCall(s, id, data, now);
    StringLessExactly(u.id, r.id);
    StringLessExactly(r.id, u.id);
    StringLessIsTotalOrder(u.id, r.id, u.id);
    assert [u, r][0] == u && [u, r][1] == r;
  }

  lemma RivalPosition(d: Dict<SyncOperation>, u: SyncOperation, r: string) returns (n: nat)
    requires r in d.table && forall k :: k in d.table ==> (Disputes(u, d.table[k]) <==> k == r)
    ensures n < |Values(d)| && Values(d)[n] == d.table[r]
    ensures forall i :: 0 <= i < |Values(d)| ==> (Disputes(u, Values(d)[i]) <==> i == n)
  {
    assert r in d.order;
    n :| 0 <= n < |d.order| && d.order[n] == r;
    forall i | 0 <= i < |Values(d)| ensures Disputes(u, Values(d)[i]) <==> i == n {
      assert d.order[i] in d.order;
      assert Values(d)[i] == d.table[d.order[i]];
    }
  }

  /** A new operation that only one stored operation disputes is rejected, and last-writer-wins then
      decides between the two. */
  lemma RivalCall(s: State, u: SyncOperation, r: string, conflictId: string, versionId: string, now: int,
                  data: Option<Document>, later: int)
    requires versionId !in s.versions.table && u.id !in s.operations.table && r in s.operations.table
    requires s.operations.table[r].id == r
    requires forall k :: k in s.operations.table ==> (Disputes(u, s.operations.table[k]) <==> k == r)
    ensures var o := s.operations.table[r];
            var (t, rejected) := SubmitStep(s, u, conflictId, versionId, now);
            var (after, outcome) := ResolveStep(t, conflictId, Lww, data, later);
            && rejected == Conflicted(conflictId)
            && if o.timestamp > u.timestamp || (o.timestamp == u.timestamp && TextBefore(u.id, r))
               then outcome == ConflictResolved && Resolves(t, after, conflictId, Lww, LwwResolution(r, o.data), later)
               else outcome == KeyError && Resolves(t, after, conflictId, Lww, LwwResolution(u.id, u.data), later)
  {
    SubmitCall(s, u, conflictId, versionId, now);
    var n := RivalPosition(s.operations, u, r);
    var t := SubmitStep(s, u, conflictId, versionId, now).0;
    assert Rejected(s, t, u, conflictId);
    var d :| IsRecordOf(d, u, Values(s.operations)) &&
             t == s.(conflicts := s.conflicts[conflictId := Conflict(d, Pending, None, None, None)]);
    OnlyRival(Values(s.operations), d, u, n);
    RivalsResolved(t, conflictId, u, s.operations.table[r], data, later);
  }

  lemma OnlyTheRestore(s: State, e: Event, u: SyncOperation)
    requires e.Restore? && e.source in s.versions.table && FreshIds(s, e) && Step(s, e).1.Restored?
    requires forall k :: k in s.operations.table ==> !Disputes(u, s.operations.table[k])
    requires var v := s.versions.table[e.source];
             Disputes(u, SyncOperation(e.opId, "system", v.entityType, v.entityId, Update, e.now, map[], v.data))
    ensures var v := s.versions.table[e.source];
            var t := Step(s, e).0;
            && t.operations.table.Keys == s.operations.table.Keys + {e.opId}
            && t.operations.table[e.opId] ==
               SyncOperation(e.opId, "system", v.entityType, v.entityId, Update, e.now, map[], v.data)
            && t.versions.table.Keys == s.versions.table.Keys + {e.versionId}
            && forall k :: k in t.operations.table ==> (Disputes(u, t.operations.table[k]) <==> k == e.opId)
  {
    RestoreCall(s, e.source, e.opId, e.conflictId, e.versionId, e.now);
  }

  /** A client's update that conflicts with a completed restore alone: last-writer-wins settles for the
      restore if it was made later than the update is stamped (or at the same time with the later id),
      and otherwise raises. */
  lemma RestoreAgainstUpdate(s: State, e: Event, u: SyncOperation, conflictId: string, versionId: string, now: int,
                             data: Option<Document>, later: int)
    requires e.Restore? && e.source in s.versions.table && FreshIds(s, e) && Step(s, e).1.Restored?
    requires versionId !in s.versions.table && versionId != e.versionId
    requires u.id !in s.operations.table && u.id != e.opId
    requires forall k :: k in s.operations.table ==> !Disputes(u, s.operations.table[k])
    requires var v := s.versions.table[e.source];
             Disputes(u, SyncOperation(e.opId, "system", v.entityType, v.entityId, Update, e.now, map[], v.data))
    ensures var v := s.versions.table[e.source];
            var (t, rejected) := SubmitStep(Step(s, e).0, u, conflictId, versionId, now);
            var (after, outcome) := ResolveStep(t, conflictId, Lww, data, later);
            && rejected == Conflicted(conflictId)
            && if e.now > u.timestamp || (e.now == u.timestamp && TextBefore(u.id, e.opId))
               then outcome == ConflictResolved &&
                    Resolves(t, after, conflictId, Lww, LwwResolution(e.opId, v.data), later)
               else outcome == KeyError && Resolves(t, after, conflictId, Lww, LwwResolution(u.id, u.data), later)
  {
    OnlyTheRestore(s, e, u);
    RivalCall(Step(s, e).0, u, e.opId, conflictId, versionId, now, data, later);
  }

  // ---------------------------------------------------------------------------------------------
  // Whole runs
  // ---------------------------------------------------------------------------------------------

  /** What a call adds to the operations accepted: the one submitted, the one made by a restore, or none. */
  function AcceptedBy(s: State, e: Event): seq<SyncOperation>
  {
    if e.Submit? && Step(s, e).1.Applied? then [e.op]
    else if e.Restore? && e.source in s.versions.table && Step(s, e).1.Restored? then
      var v := s.versions.table[e.source];
      [SyncOperation(e.opId, "system", v.entityType, v.entityId, Update, e.now, map[], v.data)]
    else []
  }

  function Accepted(events: seq<Event>): seq<SyncOperation>
  {
    if events == [] then []
    else Accepted(events[..|events| - 1]) + AcceptedBy(Run(events[..|events| - 1]), events[|events| - 1])
  }

  /** A version holds what its operation said. */
  ghost predicate VersionOf(v: Version, op: SyncOperation)
  {
    v.entityType == op.entityType && v.entityId == op.entityId && v.author == op.clientId && v.message == op.kind
    && v.data == op.data
  }

  ghost predicate VersionsOfOps(versions: seq<Version>, ops: seq<SyncOperation>)
  {
    |versions| == |ops| && forall i :: 0 <= i < |ops| ==> VersionOf(versions[i], ops[i])
  }

  ghost predicate AcceptsAs(s: State, e: Event, after: State, ops: seq<SyncOperation>)
  {
    if ops == [] then after.applied == s.applied && after.versions == s.versions && after.operations == s.operations
    else (e.Submit? || e.Restore?) && Stored(s, after, ops[0], e.versionId, e.now)
  }

  lemma SubmitAccepts(s: State, e: Event)
    requires e.Submit? && FreshIds(s, e)
    ensures AcceptsAs(s, e, Step(s, e).0, AcceptedBy(s, e))
  {
    SubmitCall(s, e.op, e.conflictId, e.versionId, e.now);
  }

  lemma RestoreAccepts(s: State, e: Event)
    requires e.Restore? && FreshIds(s, e) && e.source in s.versions.table
    ensures AcceptsAs(s, e, Step(s, e).0, AcceptedBy(s, e))
  {
    RestoreCall(s, e.source, e.opId, e.conflictId, e.versionId, e.now);
  }

  lemma OthersAcceptNone(s: State, e: Event)
    requires !e.Submit? && (e.Restore? ==> e.source !in s.versions.table)
    ensures AcceptsAs(s, e, Step(s, e).0, AcceptedBy(s, e)) && AcceptedBy(s, e) == []
  {
  }

  lemma StepAccepts(s: State, e: Event)
    requires FreshIds(s, e)
    ensures AcceptsAs(s, e, Step(s, e).0, AcceptedBy(s, e))
  {
    if e.Submit? {
      SubmitAccepts(s, e);
    } else if e.Restore? && e.source in s.versions.table {
      RestoreAccepts(s, e);
    } else {
      OthersAcceptNone(s, e);
    }
  }

  lemma StepHoldsOperations(s: State, e: Event, ops: seq<SyncOperation>)
    requires FreshIds(s, e) && s.applied == ops && VersionsOfOps(Values(s.versions), ops)
    ensures Step(s, e).0.applied == ops + AcceptedBy(s, e)
    ensures VersionsOfOps(Values(Step(s, e).0.versions), ops + AcceptedBy(s, e))
  {
    StepAccepts(s, e);
  }

  /** In every fresh run the versions, in order of creation, hold the entity, author, kind and data of the
      accepted operations, one each. */
  lemma {:induction false} VersionsHoldOperations(events: seq<Event>)
    requires FreshRun(events)
    ensures Run(events).applied == Accepted(events)
    ensures VersionsOfOps(Values(Run(events).versions), Accepted(events))
  {
    if events == [] {
    } else {
      VersionsHoldOperations(events[..|events| - 1]);
      StepHoldsOperations(Run(events[..|events| - 1]), events[|events| - 1], Accepted(events[..|events| - 1]));
    }
  }

  /** Once created, a version stays in the table as it is. */
  lemma VersionStays(events: seq<Event>, i: nat, j: nat, v: Version)
    requires FreshRun(events) && i <= j <= |events|
    requires v.versionId in Run(events[..i]).versions.table && Run(events[..i]).versions.table[v.versionId] == v
    ensures v.versionId in Run(events[..j]).versions.table && Run(events[..j]).versions.table[v.versionId] == v
  {
    var holds := (s: State) => v.versionId in s.versions.table && s.versions.table[v.versionId] == v;
    forall k: nat | i <= k < j && HoldsAt(events, k, holds) ensures HoldsAt(events, k + 1, holds) {
      FreshAt(events, k);
      RunOneMore(events, k);
      StepKeepsVersion(Run(events[..k]), events[k], v);
    }
    Persists(events, i, j, holds);
  }

  lemma StepKeepsVersion(s: State, e: Event, v: Version)
    requires FreshIds(s, e) && v.versionId in s.versions.table && s.versions.table[v.versionId] == v
    ensures v.versionId in Step(s, e).0.versions.table && Step(s, e).0.versions.table[v.versionId] == v
  {
    StepAccepts(s, e);
  }

  lemma SubmitWrites(s: State, e: Event) returns (v: Version)
    requires e.Submit? && FreshIds(s, e) && Step(s, e).1.Applied?
    ensures v.versionId == e.versionId && VersionOf(v, e.op)
    ensures v.versionId in Step(s, e).0.versions.table && Step(s, e).0.versions.table[v.versionId] == v
  {
    StepAccepts(s, e);
    v := Step(s, e).0.versions.table[e.versionId];
  }

  lemma SubmissionVersioned(events: seq<Event>, i: nat) returns (v: Version)
    requires FreshRun(events) && i < |events| && events[i].Submit? && OutcomeAt(events, i).Applied?
    ensures v.versionId == events[i].versionId && VersionOf(v, events[i].op)
    ensures var s := Run(events[..i + 1]); v.versionId in s.versions.table && s.versions.table[v.versionId] == v
  {
    FreshAt(events, i);
    RunOneMore(events, i);
    v := SubmitWrites(Run(events[..i]), events[i]);
  }

  lemma RestoreWrites(s: State, e: Event, v: Version)
    requires e.Restore? && FreshIds(s, e) && e.source in s.versions.table && s.versions.table[e.source] == v
    requires Step(s, e).1.Restored?
    ensures var after := Step(s, e).0;
            && e.opId in after.operations.table && e.versionId in after.versions.table
            && after.operations.table[e.opId] ==
               SyncOperation(e.opId, "system", v.entityType, v.entityId, Update, e.now, map[], v.data)
            && exists parent :: after.versions.table[e.versionId] ==
                 Version(e.versionId, v.entityType, v.entityId, parent, e.now, "system", Update, v.data)
  {
    StepAccepts(s, e);
  }

  /** Restoring the version an accepted operation made, at any later point of a run, writes that
      operation's data back to its entity. */
  lemma RestoreGivesDataBack(events: seq<Event>, i: nat, j: nat)
    requires FreshRun(events) && i < j < |events|
    requires events[i].Submit? && OutcomeAt(events, i).Applied?
    requires events[j].Restore? && events[j].source == events[i].versionId && OutcomeAt(events, j).Restored?
    ensures var op, after := events[i].op, Run(events[..j + 1]);
            && events[j].opId in after.operations.table && events[j].versionId in after.versions.table
            && after.operations.table[events[j].opId] ==
               SyncOperation(events[j].opId, "system", op.entityType, op.entityId, Update, events[j].now, map[],
                             op.data)
            && exists parent :: after.versions.table[events[j].versionId] ==
                 Version(events[j].versionId, op.entityType, op.entityId, parent, events[j].now, "system", Update,
                         op.data)
  {
    var v := SubmissionVersioned(events, i);
    VersionStays(events, i + 1, j, v);
    FreshAt(events, j);
    RunOneMore(events, j);
    RestoreWrites(Run(events[..j]), events[j], v);
  }
}
