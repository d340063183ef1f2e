/** Convergence: whether a batch of operations is accepted, and what the service holds afterwards,
  does not depend on the order in which the operations arrive. */
module Convergence {
  import opened VectorClocks
  import opened Conflicts
  import opened SyncModel
  import opened SyncProperties

  /** A submission: the operation, and the identifiers and time the service will give it. */
  datatype Submission = Submission(op: SyncOperation, conflictId: string, versionId: string, now: int)

  function SubmitAll(s: State, batch: seq<Submission>): State
  {
    if batch == [] then s
    else
      var x := batch[|batch| - 1];
      SubmitStep(SubmitAll(s, batch[..|batch| - 1]), x.op, x.conflictId, x.versionId, x.now).0
  }

  predicate AllApplied(s: State, batch: seq<Submission>)
  {
    batch == [] ||
    (var init, x := batch[..|batch| - 1], batch[|batch| - 1];
     AllApplied(s, init) &&
     SubmitStep(SubmitAll(s, init), x.op, x.conflictId, x.versionId, x.now).1.Applied?)
  }

  function Ops(batch: seq<Submission>): (ops: seq<SyncOperation>)
    ensures |ops| == |batch| && forall i :: 0 <= i < |ops| ==> ops[i] == batch[i].op
  {
    seq(|batch|, i requires 0 <= i < |batch| => batch[i].op)
  }

  /** Operation ids differ from each other and from all stored ones. */
  ghost predicate NewIds(stored: map<string, SyncOperation>, ops: seq<SyncOperation>)
  {
    IdsDiffer(ops) && forall o :: o in ops ==> o.id !in stored
  }

  /** No two of the operations clash, and none clashes with a stored one. */
  ghost predicate Quiet(stored: map<string, SyncOperation>, ops: seq<SyncOperation>)
  {
    && (forall i, j :: 0 <= i < j < |ops| ==> !Clashes(ops[i], ops[j]))
    && (forall i, k :: 0 <= i < |ops| && k in stored ==> !Clashes(ops[i], stored[k]))
  }

  /** The stored operations once `ops` are added. */
  function Stored(stored: map<string, SyncOperation>, ops: seq<SyncOperation>): map<string, SyncOperation>
  {
    if ops == [] then stored
    else Stored(stored, ops[..|ops| - 1])[ops[|ops| - 1].id := ops[|ops| - 1]]
  }

  lemma {:induction false} StoredIsUnion(stored: map<string, SyncOperation>, ops: seq<SyncOperation>)
    requires NewIds(stored, ops)
    ensures var r := Stored(stored, ops);
            && (forall k :: k in r <==> k in stored || exists o :: o in ops && o.id == k)
            && (forall k :: k in stored ==> r[k] == stored[k])
            && (forall o :: o in ops ==> r[o.id] == o)
  {
    if ops == [] {
    } else {
      var init, last := ops[..|ops| - 1], ops[|ops| - 1];
      assert ops == init + [last];
      LastIdDiffers(init, last);
      StoredIsUnion(stored, init);
      forall o | o in init ensures o.id != last.id { assert o.id in DistinctIdsOf(init); }
      assert forall o :: o in ops <==> o in init || o == last;
    }
  }

  /** `last` clashes with none of the operations of the batch and none of the stored ones. */
  ghost predicate QuietLast(stored: map<string, SyncOperation>, init: seq<SyncOperation>, last: SyncOperation)
  {
    && (forall i :: 0 <= i < |init| ==> !Clashes(init[i], last))
    && (forall k :: k in stored ==> !Clashes(last, stored[k]))
  }

  lemma QuietAppend(stored: map<string, SyncOperation>, init: seq<SyncOperation>, last: SyncOperation)
    ensures Quiet(stored, init + [last]) <==> Quiet(stored, init) && QuietLast(stored, init, last)
  {
    var ops := init + [last];
    if Quiet(stored, ops) {
      forall i, j | 0 <= i < j < |init| ensures !Clashes(init[i], init[j]) {
        assert !Clashes(ops[i], ops[j]);
      }
      forall i, k | 0 <= i < |init| && k in stored ensures !Clashes(init[i], stored[k]) {
        assert !Clashes(ops[i], stored[k]);
      }
      forall i | 0 <= i < |init| ensures !Clashes(init[i], last) {
        assert !Clashes(ops[i], ops[|init|]);
      }
      forall k | k in stored ensures !Clashes(last, stored[k]) {
        assert !Clashes(ops[|init|], stored[k]);
      }
    }
  }

  lemma QuietLastExactly(stored: map<string, SyncOperation>, init: seq<SyncOperation>, last: SyncOperation)
    requires NewIds(stored, init)
    ensures QuietLast(stored, init, last) <==>
            forall k :: k in Stored(stored, init) ==> !Clashes(last, Stored(stored, init)[k])
  {
    StoredIsUnion(stored, init);
    var r := Stored(stored, init);
    if QuietLast(stored, init, last) {
      forall k | k in r ensures !Clashes(last, r[k]) {
        if k !in stored {
          var o :| o in init && o.id == k;
          var i :| 0 <= i < |init| && init[i] == o;
          ClashesSymmetric(o, last);
        }
      }
    }
    if forall k :: k in r ==> !Clashes(last, r[k]) {
      forall i | 0 <= i < |init| ensures !Clashes(init[i], last) {
        assert init[i] in init && r[init[i].id] == init[i];
        ClashesSymmetric(last, init[i]);
      }
      forall k | k in stored ensures !Clashes(last, stored[k]) {
        assert r[k] == stored[k];
      }
    }
  }

  /** What the last operation of a batch must satisfy, given that those before it were added. */
  lemma QuietStep(stored: map<string, SyncOperation>, init: seq<SyncOperation>, last: SyncOperation)
    requires NewIds(stored, init + [last])
    ensures NewIds(stored, init)
    ensures Quiet(stored, init + [last]) <==>
            Quiet(stored, init) &&
            forall k :: k in Stored(stored, init) ==> !Clashes(last, Stored(stored, init)[k])
  {
    LastIdDiffers(init, last);
    assert forall o :: o in init ==> o in init + [last];
    QuietAppend(stored, init, last);
    QuietLastExactly(stored, init, last);
  }

  ghost predicate ClientsJoined(before: map<string, Client>, ops: seq<SyncOperation>, after: map<string, Client>)
  {
    after.Keys == before.Keys + ClientIds(ops) && ClocksJoined(before, ops, after)
  }

  lemma LastStep(s: State, batch: seq<Submission>) returns (version: Version)
    requires batch != [] && AllApplied(s, batch)
    ensures var x := batch[|batch| - 1];
            SubmitAll(s, batch) == Effect(SubmitAll(s, batch[..|batch| - 1]), ApplyOp(x.op, version, x.now))
    ensures AllApplied(s, batch[..|batch| - 1])
  {
    var init, x := batch[..|batch| - 1], batch[|batch| - 1];
    version := SnapshotOf(SubmitAll(s, init).versions, x.op, x.versionId, x.now);
  }

  lemma LastOp(batch: seq<Submission>)
    requires batch != []
    ensures Ops(batch) == Ops(batch[..|batch| - 1]) + [batch[|batch| - 1].op]
  {
  }

  lemma StoredAppend(stored: map<string, SyncOperation>, ops: seq<SyncOperation>, op: SyncOperation)
    ensures Stored(stored, ops + [op]) == Stored(stored, ops)[op.id := op]
  {
  }

  /** A fully accepted batch is stored, and records no conflict. */
  lemma {:induction false} BatchStores(s: State, batch: seq<Submission>)
    requires AllApplied(s, batch)
    ensures SubmitAll(s, batch).operations.table == Stored(s.operations.table, Ops(batch))
    ensures SubmitAll(s, batch).conflicts == s.conflicts
  {
    if batch == [] {
    } else {
      var version := LastStep(s, batch);
      LastOp(batch);
      BatchStores(s, batch[..|batch| - 1]);
      StoredAppend(s.operations.table, Ops(batch[..|batch| - 1]), batch[|batch| - 1].op);
    }
  }

  lemma ClientsJoinedStep(before: map<string, Client>, ops: seq<SyncOperation>, mid: map<string, Client>,
                          op: SyncOperation, now: int)
    requires ClientsJoined(before, ops, mid)
    ensures ClientsJoined(before, ops + [op], Synced(mid, op.clientId, op.clock, now))
  {
    ClocksJoinedStep(before, ops, mid, op, now);
    ClientIdsAppend(ops, op);
  }

  /** A fully accepted batch merges its clocks into those of its clients. */
  lemma {:induction false} BatchJoins(s: State, batch: seq<Submission>)
    requires AllApplied(s, batch)
    ensures ClientsJoined(s.clients, Ops(batch), SubmitAll(s, batch).clients)
  {
    if batch == [] {
    } else {
      var version := LastStep(s, batch);
      LastOp(batch);
      var init, x := batch[..|batch| - 1], batch[|batch| - 1];
      BatchJoins(s, init);
      ClientsJoinedStep(s.clients, Ops(init), SubmitAll(s, init).clients, x.op, x.now);
    }
  }

  lemma AcceptedNext(s: State, ops: seq<SyncOperation>, mid: State, x: Submission)
    requires mid.operations.table == Stored(s.operations.table, ops) && NewIds(s.operations.table, ops + [x.op])
    requires Quiet(s.operations.table, ops)
    ensures SubmitStep(mid, x.op, x.conflictId, x.versionId, x.now).1.Applied? <==>
            Quiet(s.operations.table, ops + [x.op])
  {
    QuietStep(s.operations.table, ops, x.op);
    AcceptedWhenUndisputed(mid, x.op);
    assert mid.operations.table == Stored(s.operations.table, ops);
    assert Undisputed(mid, x.op) <==> Quiet(s.operations.table, ops + [x.op]);
  }

  /** A batch is accepted in full exactly when nothing in it clashes, whatever its order. */
  lemma {:induction false} AcceptanceIsOrderFree(s: State, batch: seq<Submission>)
    requires NewIds(s.operations.table, Ops(batch))
    ensures AllApplied(s, batch) <==> Quiet(s.operations.table, Ops(batch))
  {
    if batch == [] {
    } else {
      var init, x := batch[..|batch| - 1], batch[|batch| - 1];
      var ops := Ops(init);
      assert Ops(batch) == ops + [x.op];
      QuietStep(s.operations.table, ops, x.op);
      AcceptanceIsOrderFree(s, init);
      if AllApplied(s, init) {
        BatchStores(s, init);
        AcceptedNext(s, ops, SubmitAll(s, init), x);
      }
    }
  }

  lemma SameMembers(a: seq<SyncOperation>, b: seq<SyncOperation>)
    requires multiset(a) == multiset(b)
    ensures forall o :: o in a <==> o in b
  {
    forall o ensures o in a <==> o in b {
      assert o in a <==> o in multiset(a);
      assert o in b <==> o in multiset(b);
    }
  }

  /** Distinctness and quietness are properties of the collection, not of its order. */
  lemma RearrangedBatch(stored: map<string, SyncOperation>, a: seq<SyncOperation>, b: seq<SyncOperation>)
    requires multiset(a) == multiset(b) && NewIds(stored, a)
    ensures NewIds(stored, b)
    ensures Quiet(stored, a) ==> Quiet(stored, b)
  {
    SameMembers(a, b);
    IdCount(a);
    IdCount(b);
    assert DistinctIdsOf(a) == DistinctIdsOf(b);
    assert |a| == |multiset(a)| == |multiset(b)| == |b|;
    if Quiet(stored, a) {
      forall x, y | x in a && y in a && x.id != y.id ensures !Clashes(x, y) {
        var i :| 0 <= i < |a| && a[i] == x;
        var j :| 0 <= j < |a| && a[j] == y;
        ClashesSymmetric(x, y);
      }
      forall i, j | 0 <= i < j < |b| ensures !Clashes(b[i], b[j]) {
        assert b[i] in b && b[j] in b;
      }
      forall i, k | 0 <= i < |b| && k in stored ensures !Clashes(b[i], stored[k]) {
        assert b[i] in b;
        var j :| 0 <= j < |a| && a[j] == b[i];
      }
    }
  }

  lemma JoinIgnoresOrder(base: Clock, a: seq<SyncOperation>, b: seq<SyncOperation>, clientId: string)
    requires forall o :: o in a <==> o in b
    ensures JoinOnto(base, a, clientId) == JoinOnto(base, b, clientId)
  {
    var x, y := JoinOnto(base, a, clientId), JoinOnto(base, b, clientId);
    forall c ensures (c in x <==> c in y) && Get(x, c) == Get(y, c) {
      JoinOntoIsMaximum(base, a, clientId, c);
      JoinOntoIsMaximum(base, b, clientId, c);
    }
    forall c | c in x ensures x[c] == y[c] {
      assert Get(x, c) == Get(y, c);
    }
  }

  /** Convergence: when one order of a batch is accepted in full, so is every other order, whatever
      identifiers and times the service hands out, and the stored operations, the conflicts and the
      clock of every client come out the same. */
  lemma Converges(s: State, batch: seq<Submission>, other: seq<Submission>)
    requires multiset(Ops(batch)) == multiset(Ops(other))
    requires NewIds(s.operations.table, Ops(batch)) && AllApplied(s, batch)
    ensures AllApplied(s, other)
    ensures var x, y := SubmitAll(s, batch), SubmitAll(s, other);
            && x.operations.table == y.operations.table
            && x.conflicts == y.conflicts
            && x.clients.Keys == y.clients.Keys
            && forall c :: c in x.clients ==> x.clients[c].clock == y.clients[c].clock
  {
    var a, b := Ops(batch), Ops(other);
    SameMembers(a, b);
    RearrangedBatch(s.operations.table, a, b);
    AcceptanceIsOrderFree(s, batch);
    AcceptanceIsOrderFree(s, other);
    BatchStores(s, batch);
    BatchStores(s, other);
    BatchJoins(s, batch);
    BatchJoins(s, other);
    StoredIgnoresOrder(s.operations.table, a, b);
    ClientsIgnoreOrder(s.clients, a, b, SubmitAll(s, batch).clients, SubmitAll(s, other).clients);
  }

  lemma StoredIgnoresOrder(stored: map<string, SyncOperation>, a: seq<SyncOperation>, b: seq<SyncOperation>)
    requires NewIds(stored, a) && NewIds(stored, b) && forall o :: o in a <==> o in b
    ensures Stored(stored, a) == Stored(stored, b)
  {
    StoredIsUnion(stored, a);
    StoredIsUnion(stored, b);
    var x, y := Stored(stored, a), Stored(stored, b);
    forall k | k in x ensures k in y && x[k] == y[k] {
      if k !in stored {
        var o :| o in a && o.id == k;
        assert x[o.id] == o && y[o.id] == o;
      }
    }
    assert x.Keys == y.Keys;
  }

  lemma ClientsIgnoreOrder(before: map<string, Client>, a: seq<SyncOperation>, b: seq<SyncOperation>,
                           x: map<string, Client>, y: map<string, Client>)
    requires ClientsJoined(before, a, x) && ClientsJoined(before, b, y) && forall o :: o in a <==> o in b
    ensures x.Keys == y.Keys && forall c :: c in x ==> x[c].clock == y[c].clock
  {
    forall c | c in x ensures c in y && x[c].clock == y[c].clock {
      JoinIgnoresOrder(ClockOf(before, c), a, b, c);
    }
    assert ClientIds(a) == ClientIds(b);
  }
}
