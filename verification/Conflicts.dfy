/** Sync operations, the conflict detector and the resolution strategies. */
module Conflicts {
  import opened Wrappers
  import opened VectorClocks
  import opened DeepMerge

  datatype OpKind = Create | Update | Delete | Other(name: string)

  /** A submitted operation, treated as an immutable value. */
  datatype SyncOperation = SyncOperation(
    id: string,
    clientId: string,
    entityType: string,
    entityId: string,
    kind: OpKind,
    timestamp: int,
    clock: Clock,
    data: Document)

  predicate SameEntity(a: SyncOperation, b: SyncOperation)
  {
    a.entityType == b.entityType && a.entityId == b.entityId
  }

  // ---------------------------------------------------------------------------------------------
  // Detection
  // ---------------------------------------------------------------------------------------------

  datatype ConflictType = ConcurrentModification | DeleteUpdate

  datatype Clash = Clash(conflictType: ConflictType, incoming: SyncOperation, existing: SyncOperation)

  datatype Detection = Detection(
    entityType: string,
    entityId: string,
    conflictType: ConflictType,
    operations: seq<SyncOperation>,
    details: seq<Clash>)

  /** Two operations clash when they are concurrent on one entity and at least one of them updates
      it while the other updates or deletes it. */
  predicate Clashes(a: SyncOperation, b: SyncOperation)
  {
    && SameEntity(a, b)
    && Concurrent(a.clock, b.clock)
    && ((a.kind == Update && b.kind in {Update, Delete}) || (a.kind == Delete && b.kind == Update))
  }

  function ClashOf(a: SyncOperation, b: SyncOperation): Clash
  {
    Clash(if a.kind == b.kind then ConcurrentModification else DeleteUpdate, a, b)
  }

  /** The clashes of `op` with `existing`, in the order of `existing`. */
  function ClashList(op: SyncOperation, existing: seq<SyncOperation>): seq<Clash>
  {
    if existing == [] then []
    else
      var init, last := existing[..|existing| - 1], existing[|existing| - 1];
      if Clashes(op, last) then ClashList(op, init) + [ClashOf(op, last)] else ClashList(op, init)
  }

  function Existing(clashes: seq<Clash>): seq<SyncOperation>
  {
    seq(|clashes|, i requires 0 <= i < |clashes| => clashes[i].existing)
  }

  function Detect(op: SyncOperation, existing: seq<SyncOperation>): Option<Detection>
  {
    var clashes := ClashList(op, existing);
    if clashes == [] then None
    else Some(Detection(op.entityType, op.entityId, clashes[0].conflictType,
                        [op] + Existing(clashes), clashes))
  }

  /** The detector's loop, with the source's order of tests. */
  method DetectConflict(op: SyncOperation, existing: seq<SyncOperation>) returns (r: Option<Detection>)
    ensures r == Detect(op, existing)
  {
    var conflicts: seq<Clash> := [];
    for i := 0 to |existing|
      invariant conflicts == ClashList(op, existing[..i])
    {
      var e := existing[i];
      assert existing[..i + 1][..i] == existing[..i];
      if op.entityType != e.entityType || op.entityId != e.entityId { continue; }
      if Concurrent(op.clock, e.clock) {
        if op.kind == Update && e.kind == Update {
          conflicts := conflicts + [Clash(ConcurrentModification, op, e)];
        } else if (op.kind == Delete && e.kind == Update) || (op.kind == Update && e.kind == Delete) {
          conflicts := conflicts + [Clash(DeleteUpdate, op, e)];
        }
      }
    }
    assert existing[..|existing|] == existing;
    if conflicts != [] {
      return Some(Detection(op.entityType, op.entityId, conflicts[0].conflictType,
                            [op] + Existing(conflicts), conflicts));
    }
    return None;
  }

  lemma ClashesSymmetric(a: SyncOperation, b: SyncOperation)
    ensures Clashes(a, b) <==> Clashes(b, a)
  {
  }

  lemma {:induction false} ClashListPicks(op: SyncOperation, existing: seq<SyncOperation>)
    returns (picks: seq<nat>)
    ensures Selects(existing, Existing(ClashList(op, existing)), picks)
    ensures forall i :: 0 <= i < |existing| ==> (i in picks <==> Clashes(op, existing[i]))
  {
    if existing == [] {
      picks := [];
    } else {
      var n := |existing| - 1;
      assert existing == existing[..n] + [existing[n]];
      picks := ClashListPicks(op, existing[..n]);
      SelectsAppend(existing[..n], Existing(ClashList(op, existing[..n])), picks, existing[n]);
      if Clashes(op, existing[n]) {
        ExistingAppend(ClashList(op, existing[..n]), ClashOf(op, existing[n]));
        picks := picks + [n];
      }
    }
  }

  lemma ExistingAppend(clashes: seq<Clash>, clash: Clash)
    ensures Existing(clashes + [clash]) == Existing(clashes) + [clash.existing]
  {
  }

  lemma {:induction false} ClashTypes(op: SyncOperation, existing: seq<SyncOperation>, k: nat)
    requires k < |ClashList(op, existing)|
    ensures var clash := ClashList(op, existing)[k];
            Clashes(op, clash.existing) && clash == ClashOf(op, clash.existing)
  {
    if existing == [] {
    } else {
      var init := existing[..|existing| - 1];
      if k < |ClashList(op, init)| { ClashTypes(op, init, k); }
    }
  }

  /** A record is produced exactly when some existing operation clashes with the new one; it lists
      the new operation followed by exactly the clashing ones, in their original order, and its
      type is that of the first clash. */
  lemma DetectorIsExact(op: SyncOperation, existing: seq<SyncOperation>) returns (picks: seq<nat>)
    ensures Detect(op, existing).Some? <==> exists e :: e in existing && Clashes(op, e)
    ensures forall i :: 0 <= i < |existing| ==> (i in picks <==> Clashes(op, existing[i]))
    ensures Detect(op, existing).Some? ==>
              var d := Detect(op, existing).value;
              && |d.operations| == 1 + |d.details| > 1
              && d.operations[0] == op && Selects(existing, d.operations[1..], picks)
              && (d.conflictType == DeleteUpdate <==> Delete in {op.kind, d.operations[1].kind})
  {
    picks := ClashListPicks(op, existing);
    DetectsWhenPicked(op, existing, picks);
    if Detect(op, existing).Some? { ClashTypes(op, existing, 0); }
  }

  lemma DetectsWhenPicked(op: SyncOperation, existing: seq<SyncOperation>, picks: seq<nat>)
    requires Selects(existing, Existing(ClashList(op, existing)), picks)
    requires forall i :: 0 <= i < |existing| ==> (i in picks <==> Clashes(op, existing[i]))
    ensures Detect(op, existing).Some? <==> exists e :: e in existing && Clashes(op, e)
  {
    if picks != [] {
      assert picks[0] in picks && existing[picks[0]] in existing;
    }
    if e :| e in existing && Clashes(op, e) {
      var i :| 0 <= i < |existing| && existing[i] == e;
      assert i in picks;
    }
  }

  // ---------------------------------------------------------------------------------------------
  // Last writer wins
  // ---------------------------------------------------------------------------------------------

  predicate StringLess(a: string, b: string)
  {
    if b == [] then false
    else if a == [] then true
    else a[0] < b[0] || (a[0] == b[0] && StringLess(a[1..], b[1..]))
  }

  lemma {:induction false} StringLessIsTotalOrder(a: string, b: string, c: string)
    ensures !StringLess(a, a)
    ensures StringLess(a, b) && StringLess(b, c) ==> StringLess(a, c)
    ensures a == b || StringLess(a, b) || StringLess(b, a)
    decreases |a| + |b| + |c|
  {
    if a != [] { StringLessIsTotalOrder(a[1..], [], []); }
    if a != [] && b != [] {
      StringLessIsTotalOrder(a[1..], b[1..], if c != [] then c[1..] else []);
      if a[0] == b[0] && a[1..] == b[1..] { assert a == [a[0]] + a[1..] && b == [b[0]] + b[1..]; }
    }
  }

  /** The order of the pair (timestamp, id). */
  predicate Earlier(a: SyncOperation, b: SyncOperation)
  {
    a.timestamp < b.timestamp || (a.timestamp == b.timestamp && StringLess(a.id, b.id))
  }

  lemma EarlierIsTotalOrder(a: SyncOperation, b: SyncOperation, c: SyncOperation)
    ensures !Earlier(a, a)
    ensures Earlier(a, b) && Earlier(b, c) ==> Earlier(a, c)
    ensures Earlier(a, b) || Earlier(b, a) || (a.timestamp == b.timestamp && a.id == b.id)
    ensures !Earlier(b, a) && !Earlier(c, b) ==> !Earlier(c, a)
  {
    StringLessIsTotalOrder(a.id, b.id, c.id);
    StringLessIsTotalOrder(c.id, a.id, b.id);
    StringLessIsTotalOrder(b.id, c.id, a.id);
  }

  /** The operation with the greatest (timestamp, id), the first such when several tie. */
  function Winner(ops: seq<SyncOperation>): SyncOperation
    requires ops != []
  {
    if |ops| == 1 then ops[0]
    else
      var best, last := Winner(ops[..|ops| - 1]), ops[|ops| - 1];
      if Earlier(best, last) then last else best
  }

  lemma {:induction false} WinnerIsLatest(ops: seq<SyncOperation>) returns (k: nat)
    requires ops != []
    ensures k < |ops| && Winner(ops) == ops[k]
    ensures forall o :: o in ops ==> !Earlier(Winner(ops), o)
    ensures forall j :: 0 <= j < k ==> Earlier(ops[j], ops[k])
  {
    k := 0;
    EarlierIsTotalOrder(ops[0], ops[0], ops[0]);
    if |ops| > 1 {
      var n := |ops| - 1;
      k := WinnerIsLatest(ops[..n]);
      var best, last := ops[k], ops[n];
      EarlierIsTotalOrder(last, last, last);
      forall o | o in ops[..n] ensures Earlier(best, last) ==> Earlier(o, last) {
        EarlierIsTotalOrder(o, best, last);
        EarlierIsTotalOrder(best, o, last);
      }
      assert forall o :: o in ops ==> o in ops[..n] || o == last;
      if Earlier(best, last) {
        forall o | o in ops ensures !Earlier(last, o) {
          EarlierIsTotalOrder(o, last, o);
          EarlierIsTotalOrder(last, o, last);
        }
        k := n;
      }
    }
  }

  /** Whoever wins, wins in every arrangement of operations whose ids differ. */
  lemma WinnerIgnoresOrder(ops: seq<SyncOperation>, other: seq<SyncOperation>)
    requires ops != [] && multiset(ops) == multiset(other)
    requires forall a, b :: a in ops && b in ops && a.id == b.id ==> a == b
    ensures other != [] && Winner(ops) == Winner(other)
  {
    assert ops[0] in multiset(other);
    var _ := WinnerIsLatest(ops);
    var _ := WinnerIsLatest(other);
    assert Winner(other) in multiset(other) && Winner(ops) in multiset(ops);
    EarlierIsTotalOrder(Winner(ops), Winner(other), Winner(ops));
  }

  // ---------------------------------------------------------------------------------------------
  // Deep-merge strategy
  // ---------------------------------------------------------------------------------------------

  function UpdatePayloads(ops: seq<SyncOperation>): seq<Document>
  {
    if ops == [] then []
    else
      var init, last := ops[..|ops| - 1], ops[|ops| - 1];
      if last.kind == Update then UpdatePayloads(init) + [last.data] else UpdatePayloads(init)
  }

  function DataOf(ops: seq<SyncOperation>): seq<Document>
  {
    seq(|ops|, i requires 0 <= i < |ops| => ops[i].data)
  }

  lemma DataAppend(ops: seq<SyncOperation>, last: SyncOperation)
    ensures DataOf(ops + [last]) == DataOf(ops) + [last.data]
  {
  }

  /** Exactly the payloads of the updates, in their order. */
  lemma {:induction false} PayloadsOfUpdates(ops: seq<SyncOperation>) returns (picks: seq<nat>)
    ensures Selects(DataOf(ops), UpdatePayloads(ops), picks)
    ensures forall i :: 0 <= i < |ops| ==> (i in picks <==> ops[i].kind == Update)
  {
    if ops == [] {
      picks := [];
    } else {
      var n := |ops| - 1;
      DataAppend(ops[..n], ops[n]);
      assert ops == ops[..n] + [ops[n]];
      picks := PayloadsOfUpdates(ops[..n]);
      SelectsAppend(DataOf(ops[..n]), UpdatePayloads(ops[..n]), picks, ops[n].data);
      if ops[n].kind == Update { picks := picks + [n]; }
    }
  }

  lemma PayloadMembers(ops: seq<SyncOperation>, d: Document)
    ensures d in UpdatePayloads(ops) <==> exists o :: o in ops && o.kind == Update && o.data == d
  {
    var picks := PayloadsOfUpdates(ops);
    if d in UpdatePayloads(ops) {
      var k :| 0 <= k < |picks| && UpdatePayloads(ops)[k] == d;
      assert picks[k] in picks && ops[picks[k]] in ops;
    }
    if o :| o in ops && o.kind == Update && o.data == d {
      var i :| 0 <= i < |ops| && ops[i] == o;
      var k :| 0 <= k < |picks| && picks[k] == i;
      assert UpdatePayloads(ops)[k] == d;
    }
  }

  function CrdtData(ops: seq<SyncOperation>): Document
  {
    MergeAll(UpdatePayloads(ops))
  }

  method ResolveCrdt(ops: seq<SyncOperation>) returns (merged: Document)
    ensures merged == CrdtData(ops)
  {
    merged := EMPTY;
    for i := 0 to |ops|
      invariant merged == CrdtData(ops[..i])
    {
      assert ops[..i + 1][..i] == ops[..i];
      if ops[i].kind == Update {
        ghost var docs := UpdatePayloads(ops[..i]);
        assert UpdatePayloads(ops[..i + 1]) == docs + [ops[i].data];
        assert (docs + [ops[i].data])[..|docs|] == docs;
        merged := MergeDicts(merged, ops[i].data);
      }
    }
    assert ops[..|ops|] == ops;
  }

  /** The deep-merge strategy gives one answer for every arrangement of the operations exactly when
      the payloads of the updates are pairwise compatible. */
  lemma CrdtIgnoresOrderExactly(ops: seq<SyncOperation>)
    ensures PairwiseCompatible(UpdatePayloads(ops)) <==>
            forall other | multiset(other) == multiset(ops) :: CrdtData(other) == CrdtData(ops)
  {
    if PairwiseCompatible(UpdatePayloads(ops)) {
      forall other | multiset(other) == multiset(ops) ensures CrdtData(other) == CrdtData(ops) {
        forall o ensures o in ops <==> o in other {
          assert o in ops <==> o in multiset(ops);
          assert o in other <==> o in multiset(other);
        }
        forall d ensures d in UpdatePayloads(ops) <==> d in UpdatePayloads(other) {
          PayloadMembers(ops, d);
          PayloadMembers(other, d);
        }
        MergeAllIgnoresOrder(UpdatePayloads(ops), UpdatePayloads(other));
      }
    } else {
      var x, y :| x in UpdatePayloads(ops) && y in UpdatePayloads(ops) && !Compatible(x, y);
      var p := IncompatiblePath(x, y);
      var xLast := EndingWith(ops, x, p);
      var yLast := EndingWith(ops, y, p);
      assert CrdtData(xLast) != CrdtData(yLast);
    }
  }

  /** Some arrangement of the operations lets a given payload have the last word at a path. */
  lemma EndingWith(ops: seq<SyncOperation>, doc: Document, p: Path) returns (other: seq<SyncOperation>)
    requires doc in UpdatePayloads(ops) && ShapeAt(doc, p) != Absent
    ensures multiset(other) == multiset(ops)
    ensures ShapeAt(CrdtData(other), p) == ShapeAt(doc, p)
  {
    PayloadMembers(ops, doc);
    var i :| 0 <= i < |ops| && ops[i].kind == Update && ops[i].data == doc;
    var rest := ops[..i] + ops[i + 1..];
    other := rest + [ops[i]];
    assert ops == ops[..i] + [ops[i]] + ops[i + 1..];
    assert other[..|other| - 1] == rest;
    LastPayloadWins(UpdatePayloads(other), p);
  }

  // ---------------------------------------------------------------------------------------------
  // Strategies
  // ---------------------------------------------------------------------------------------------

  datatype Strategy = Lww | Crdt | Manual | Unknown(name: string)

  datatype Resolution = LwwResolution(winningOperation: string, data: Document)
                      | CrdtResolution(data: Document)
                      | ManualResolution(data: Document)

  /** The result of a strategy; nothing when the request itself is refused (an unknown strategy,
      a manual resolution with missing or empty data, a maximum over no operations). */
  function Resolve(ops: seq<SyncOperation>, strategy: Strategy, data: Option<Document>): Option<Resolution>
  {
    match strategy
    case Lww => if ops == [] then None else Some(LwwResolution(Winner(ops).id, Winner(ops).data))
    case Crdt => Some(CrdtResolution(CrdtData(ops)))
    case Manual => if data.None? || data.value == EMPTY then None else Some(ManualResolution(data.value))
    case Unknown(_) => None
  }
}
