/** The version graph: snapshots of one entity point to earlier snapshots of the same entity and
  form a tree; when timestamps strictly increase the tree is a chain, and the history listing is the
  walk along the parents from the newest snapshot. */
module VersionGraph {
  import opened Wrappers
  import opened OrderedDict
  import opened SyncModel
  import opened SyncProperties

  // ---------------------------------------------------------------------------------------------
  // Facts about the versions of one entity, in creation order
  // ---------------------------------------------------------------------------------------------

  ghost predicate DistinctVersionIds(vs: seq<Version>)
  {
    forall i, j :: 0 <= i < j < |vs| ==> vs[i].versionId != vs[j].versionId
  }

  predicate ParentAt(vs: seq<Version>, i: nat)
    requires i < |vs|
  {
    vs[i].parent == ParentAfter(vs[..i])
  }

  /** Each version's parent is the newest of those created before it. */
  ghost predicate ParentLaw(vs: seq<Version>)
  {
    forall i: nat :: i < |vs| ==> ParentAt(vs, i)
  }

  lemma {:induction false} NewestAt(vs: seq<Version>) returns (k: nat)
    requires vs != []
    ensures k < |vs| && Newest(vs) == vs[k]
    ensures forall j :: 0 <= j < |vs| ==> vs[j].timestamp <= vs[k].timestamp
    ensures forall j :: 0 <= j < k ==> vs[j].timestamp < vs[k].timestamp
  {
    k := 0;
    if |vs| > 1 {
      k := NewestAt(vs[..|vs| - 1]);
      if vs[k].timestamp < vs[|vs| - 1].timestamp { k := |vs| - 1; }
    }
  }

  /** The parents of a walk lead from each version to the next, and the last has none. */
  ghost predicate ParentWalk(walk: seq<Version>)
  {
    && walk != []
    && walk[|walk| - 1].parent == None
    && forall i :: 0 <= i < |walk| - 1 ==> walk[i].parent == Some(walk[i + 1].versionId)
  }

  /** One root only, namely the first version; every other version's parent is one that was created
      earlier, and no other version has that id. */
  lemma ParentsComeEarlier(vs: seq<Version>, i: nat) returns (j: nat)
    requires ParentLaw(vs) && DistinctVersionIds(vs) && i < |vs|
    ensures vs[i].parent == None <==> i == 0
    ensures i > 0 ==> j < i && vs[i].parent == Some(vs[j].versionId)
                      && forall k :: 0 <= k < |vs| && vs[i].parent == Some(vs[k].versionId) ==> k == j
  {
    j := 0;
    assert ParentAt(vs, i);
    if i > 0 { j := NewestAt(vs[..i]); }
  }

  /** From every version the parents lead to the root, through versions created ever earlier. */
  lemma {:induction false} WalkToRoot(vs: seq<Version>, i: nat) returns (walk: seq<Version>, at: seq<nat>)
    requires ParentLaw(vs) && DistinctVersionIds(vs) && i < |vs|
    ensures ParentWalk(walk) && walk[0] == vs[i] && walk[|walk| - 1] == vs[0]
    ensures |at| == |walk| && forall k :: 0 <= k < |at| ==> at[k] < |vs| && walk[k] == vs[at[k]]
    ensures at[0] == i && forall k :: 0 < k < |at| ==> at[k] < at[k - 1]
    decreases i
  {
    var j := ParentsComeEarlier(vs, i);
    if i == 0 {
      walk, at := [vs[0]], [0];
    } else {
      walk, at := WalkToRoot(vs, j);
      walk, at := [vs[i]] + walk, [i] + at;
    }
  }

  ghost predicate StrictTimes(vs: seq<Version>)
  {
    forall i, j :: 0 <= i < j < |vs| ==> vs[i].timestamp < vs[j].timestamp
  }

  ghost predicate IsChain(vs: seq<Version>)
  {
    forall i :: 0 < i < |vs| ==> vs[i].parent == Some(vs[i - 1].versionId)
  }

  ghost predicate LaterThanAllBefore(vs: seq<Version>, k: nat)
    requires k < |vs|
  {
    forall j :: 0 <= j < k ==> vs[j].timestamp < vs[k].timestamp
  }

  /** The parent is the version just before exactly when that one is later than all before it. */
  lemma ParentIsPrevious(vs: seq<Version>, i: nat)
    requires ParentLaw(vs) && DistinctVersionIds(vs) && 0 < i < |vs|
    ensures vs[i].parent == Some(vs[i - 1].versionId) <==> LaterThanAllBefore(vs, i - 1)
  {
    assert ParentAt(vs, i);
    var k := NewestAt(vs[..i]);
    assert vs[i].parent == Some(vs[k].versionId);
  }

  /** The versions form one chain exactly when all timestamps but the last strictly increase. */
  lemma ChainExactly(vs: seq<Version>)
    requires ParentLaw(vs) && DistinctVersionIds(vs)
    ensures IsChain(vs) <==> vs == [] || StrictTimes(vs[..|vs| - 1])
  {
    if vs != [] {
      var init := vs[..|vs| - 1];
      if IsChain(vs) {
        forall i, j | 0 <= i < j < |init| ensures init[i].timestamp < init[j].timestamp {
          ParentIsPrevious(vs, j + 1);
        }
      }
      if StrictTimes(init) {
        forall i | 0 < i < |vs| ensures vs[i].parent == Some(vs[i - 1].versionId) {
          assert forall j :: 0 <= j < i - 1 ==> init[j].timestamp < init[i - 1].timestamp;
          ParentIsPrevious(vs, i);
        }
      }
    }
  }

  // ---------------------------------------------------------------------------------------------
  // The history listing
  // ---------------------------------------------------------------------------------------------

  /** Newest first; versions with one timestamp keep their order, as a stable sort leaves them. */
  function InsertNewestFirst(sorted: seq<Version>, v: Version): seq<Version>
  {
    if sorted == [] || sorted[0].timestamp < v.timestamp then [v] + sorted
    else [sorted[0]] + InsertNewestFirst(sorted[1..], v)
  }

  function SortNewestFirst(vs: seq<Version>): seq<Version>
  {
    if vs == [] then []
    else InsertNewestFirst(SortNewestFirst(vs[..|vs| - 1]), vs[|vs| - 1])
  }

  ghost predicate NewestFirst(vs: seq<Version>)
  {
    forall i, j :: 0 <= i < j < |vs| ==> vs[i].timestamp >= vs[j].timestamp
  }

  function WithTime(vs: seq<Version>, t: int): seq<Version>
  {
    if vs == [] then []
    else if vs[0].timestamp == t then [vs[0]] + WithTime(vs[1..], t)
    else WithTime(vs[1..], t)
  }

  lemma {:induction false} WithTimeAppend(vs: seq<Version>, v: Version, t: int)
    ensures WithTime(vs + [v], t) == WithTime(vs, t) + if v.timestamp == t then [v] else []
  {
    if vs == [] {
    } else {
      assert (vs + [v])[1..] == vs[1..] + [v];
      WithTimeAppend(vs[1..], v, t);
    }
  }

  lemma {:induction false} InsertPermutes(sorted: seq<Version>, v: Version)
    ensures multiset(InsertNewestFirst(sorted, v)) == multiset(sorted) + multiset{v}
    ensures forall x :: x in InsertNewestFirst(sorted, v) ==> x == v || x in sorted
  {
    if sorted != [] && !(sorted[0].timestamp < v.timestamp) {
      InsertPermutes(sorted[1..], v);
      assert sorted == [sorted[0]] + sorted[1..];
    }
  }

  lemma {:induction false} InsertKeepsSorted(sorted: seq<Version>, v: Version)
    requires NewestFirst(sorted)
    ensures NewestFirst(InsertNewestFirst(sorted, v))
  {
    if sorted != [] && !(sorted[0].timestamp < v.timestamp) {
      InsertKeepsSorted(sorted[1..], v);
      InsertPermutes(sorted[1..], v);
      var tail := InsertNewestFirst(sorted[1..], v);
      forall i | 0 <= i < |tail| ensures tail[i].timestamp <= sorted[0].timestamp {
        assert tail[i] in tail;
      }
    }
  }

  lemma {:induction false} InsertIsStable(sorted: seq<Version>, v: Version, t: int)
    requires NewestFirst(sorted)
    ensures WithTime(InsertNewestFirst(sorted, v), t) ==
            WithTime(sorted, t) + if v.timestamp == t then [v] else []
  {
    if sorted == [] {
    } else if sorted[0].timestamp < v.timestamp {
      NothingAtTime(sorted, v.timestamp);
      assert ([v] + sorted)[1..] == sorted;
    } else {
      InsertIsStable(sorted[1..], v, t);
      var tail := InsertNewestFirst(sorted[1..], v);
      assert ([sorted[0]] + tail)[1..] == tail;
    }
  }

  lemma {:induction false} NothingAtTime(vs: seq<Version>, t: int)
    requires forall i :: 0 <= i < |vs| ==> vs[i].timestamp < t
    ensures WithTime(vs, t) == []
  {
    if vs == [] {
    } else {
      NothingAtTime(vs[1..], t);
    }
  }

  /** The listing is newest first, a permutation of the versions, and stable. */
  lemma {:induction false} HistoryIsSorted(vs: seq<Version>, t: int)
    ensures NewestFirst(SortNewestFirst(vs))
    ensures multiset(SortNewestFirst(vs)) == multiset(vs)
    ensures WithTime(SortNewestFirst(vs), t) == WithTime(vs, t)
  {
    if vs == [] {
    } else {
      var init, last := vs[..|vs| - 1], vs[|vs| - 1];
      HistoryIsSorted(init, t);
      InsertPermutes(SortNewestFirst(init), last);
      InsertKeepsSorted(SortNewestFirst(init), last);
      InsertIsStable(SortNewestFirst(init), last, t);
      WithTimeAppend(init, last, t);
      assert vs == init + [last];
    }
  }

  /** Being newest first, and holding the same versions in the same order at every timestamp, leaves one
      listing. */
  lemma {:induction false} HistoryIsDetermined(a: seq<Version>, b: seq<Version>)
    requires NewestFirst(a) && NewestFirst(b)
    requires forall t :: WithTime(a, t) == WithTime(b, t)
    ensures a == b
  {
    if a == [] {
      HeadHasItsTime(b);
    } else {
      SameHead(a, b);
      forall t ensures WithTime(a[1..], t) == WithTime(b[1..], t) {
        assert WithTime(a, t) == WithTime(b, t);
        if t == a[0].timestamp {
          assert WithTime(a, t)[1..] == WithTime(a[1..], t) && WithTime(b, t)[1..] == WithTime(b[1..], t);
        }
      }
      HistoryIsDetermined(a[1..], b[1..]);
      assert a == [a[0]] + a[1..] && b == [b[0]] + b[1..];
    }
  }

  lemma SameHead(a: seq<Version>, b: seq<Version>)
    requires NewestFirst(a) && NewestFirst(b) && a != []
    requires forall t :: WithTime(a, t) == WithTime(b, t)
    ensures b != [] && a[0] == b[0]
  {
    HeadHasItsTime(a);
    var i := FirstWithTime(b, a[0].timestamp);
    HeadHasItsTime(b);
    var j := FirstWithTime(a, b[0].timestamp);
    assert b[0].timestamp >= b[i].timestamp && a[0].timestamp >= a[j].timestamp;
    assert WithTime(a, a[0].timestamp) == WithTime(b, a[0].timestamp);
  }

  lemma HeadHasItsTime(vs: seq<Version>)
    ensures vs != [] ==> WithTime(vs, vs[0].timestamp) != [] && WithTime(vs, vs[0].timestamp)[0] == vs[0]
  {
  }

  lemma {:induction false} FirstWithTime(vs: seq<Version>, t: int) returns (i: nat)
    requires WithTime(vs, t) != []
    ensures i < |vs| && vs[i].timestamp == t
  {
    if vs[0].timestamp == t {
      i := 0;
    } else {
      i := FirstWithTime(vs[1..], t);
      i := i + 1;
    }
  }

  /** With strictly increasing timestamps the listing is the creation order reversed. */
  lemma {:induction false} HistoryIsReversed(vs: seq<Version>)
    requires StrictTimes(vs)
    ensures |SortNewestFirst(vs)| == |vs|
    ensures forall i :: 0 <= i < |vs| ==> SortNewestFirst(vs)[i] == vs[|vs| - 1 - i]
  {
    if vs == [] {
    } else {
      var init, last := vs[..|vs| - 1], vs[|vs| - 1];
      HistoryIsReversed(init);
      var tail := SortNewestFirst(init);
      if init != [] { assert tail[0] == vs[|vs| - 2]; }
      assert SortNewestFirst(vs) == [last] + tail;
      forall i | 0 < i < |vs| ensures ([last] + tail)[i] == vs[|vs| - 1 - i] {
        assert ([last] + tail)[i] == tail[i - 1] == init[|init| - 1 - (i - 1)];
      }
    }
  }

  // ---------------------------------------------------------------------------------------------
  // The versions of a reachable state
  // ---------------------------------------------------------------------------------------------

  function Snapshots(s: State, entityId: string): seq<Version>
  {
    VersionsOf(Values(s.versions), entityId)
  }

  ghost predicate Lawful(versions: Dict<Version>)
  {
    forall id :: var vs := VersionsOf(Values(versions), id); ParentLaw(vs) && DistinctVersionIds(vs)
  }

  lemma AppendKeepsLaw(vs: seq<Version>, v: Version)
    requires ParentLaw(vs) && DistinctVersionIds(vs)
    requires v.parent == ParentAfter(vs)
    requires forall w :: w in vs ==> w.versionId != v.versionId
    ensures ParentLaw(vs + [v]) && DistinctVersionIds(vs + [v])
  {
    var all := vs + [v];
    forall i: nat | i < |all| ensures ParentAt(all, i) {
      if i < |vs| {
        assert ParentAt(vs, i) && all[..i] == vs[..i];
      } else {
        assert all[..i] == vs;
      }
    }
    forall i, j | 0 <= i < j < |all| ensures all[i].versionId != all[j].versionId {
      assert all[i] in vs;
    }
  }

  lemma PutKeepsLaw(versions: Dict<Version>, v: Version)
    requires Lawful(versions) && KeyedByVersionId(versions) && v.versionId !in versions.table
    requires v.parent == ParentAfter(VersionsOf(Values(versions), v.entityId))
    ensures Lawful(Put(versions, v.versionId, v))
  {
    var vs := VersionsOf(Values(versions), v.entityId);
    SnapshotIsAddedLast(versions, v);
    NewVersionId(versions, v.entityId, v.versionId);
    AppendKeepsLaw(vs, v);
    var after := Put(versions, v.versionId, v);
    forall id ensures var ws := VersionsOf(Values(after), id); ParentLaw(ws) && DistinctVersionIds(ws) {
      if id != v.entityId { assert VersionsOf(Values(after), id) == VersionsOf(Values(versions), id); }
    }
  }

  lemma StepKeepsLaw(s: State, e: Event)
    requires Lawful(s.versions) && KeyedByVersionId(s.versions) && FreshIds(s, e)
    ensures Lawful(Step(s, e).0.versions) && KeyedByVersionId(Step(s, e).0.versions)
  {
    var ch := StepIsEffect(s, e);
    if ch.ApplyOp? { PutKeepsLaw(s.versions, ch.version); }
  }

  lemma {:induction false} RunKeepsLaw(events: seq<Event>)
    requires FreshRun(events)
    ensures Lawful(Run(events).versions) && KeyedByVersionId(Run(events).versions)
  {
    if events == [] {
    } else {
      RunKeepsLaw(events[..|events| - 1]);
      StepKeepsLaw(Run(events[..|events| - 1]), events[|events| - 1]);
    }
  }

  /** In every reachable state the versions of an entity form a tree: from each of them the parents
      lead, through ever earlier versions of the same entity, to the only one without a parent. */
  lemma VersionsFormTree(events: seq<Event>, entityId: string, i: nat) returns (walk: seq<Version>)
    requires FreshRun(events) && i < |Snapshots(Run(events), entityId)|
    ensures var vs := Snapshots(Run(events), entityId);
            && ParentWalk(walk) && walk[0] == vs[i] && walk[|walk| - 1] == vs[0]
            && (forall v :: v in walk ==> v in vs)
            && (vs[i].parent == None <==> i == 0)
            && |walk| <= i + 1
  {
    RunKeepsLaw(events);
    var vs := Snapshots(Run(events), entityId);
    var at;
    walk, at := WalkToRoot(vs, i);
    var _ := ParentsComeEarlier(vs, i);
    Descending(at);
  }

  lemma {:induction false} Descending(at: seq<nat>)
    requires at != [] && forall k :: 0 < k < |at| ==> at[k] < at[k - 1]
    ensures |at| <= at[0] + 1
  {
    if |at| == 1 {
    } else {
      Descending(at[1..]);
    }
  }

  /** In every reachable state, a completed restore gives the entity a new newest version exactly when
      it happens later than the newest before it; otherwise that one stays the newest. */
  lemma RestoredIsNewestExactly(events: seq<Event>, e: Event)
    requires FreshRun(events) && FreshIds(Run(events), e)
    requires e.Restore? && e.source in Run(events).versions.table && Step(Run(events), e).1.Restored?
    ensures var s := Run(events);
            var id := s.versions.table[e.source].entityId;
            var before, after := Snapshots(s, id), Snapshots(Step(s, e).0, id);
            && before != [] && after != []
            && (Newest(after).versionId == e.versionId <==> Newest(before).timestamp < e.now)
            && (Newest(after).versionId != e.versionId ==> Newest(after) == Newest(before))
  {
    RunKeepsLaw(events);
    NewestAfterRestore(Run(events), e);
  }

  lemma NewVersionId(versions: Dict<Version>, entityId: string, versionId: string)
    requires KeyedByVersionId(versions) && versionId !in versions.table
    ensures forall v :: v in VersionsOf(Values(versions), entityId) ==> v.versionId != versionId
  {
    ValuesOfTable(versions);
    VersionsOfMembers(Values(versions), entityId);
  }

  lemma NewestAppend(before: seq<Version>, v: Version)
    requires before != [] && forall w :: w in before ==> w.versionId != v.versionId
    ensures Newest(before + [v]).versionId == v.versionId <==> Newest(before).timestamp < v.timestamp
    ensures Newest(before + [v]).versionId != v.versionId ==> Newest(before + [v]) == Newest(before)
  {
    assert (before + [v])[..|before|] == before;
    var k := NewestAt(before);
    assert before[k] in before;
  }

  lemma NewestAfterRestore(s: State, e: Event)
    requires e.Restore? && e.source in s.versions.table && e.versionId !in s.versions.table
    requires KeyedByVersionId(s.versions) && Step(s, e).1.Restored?
    ensures var id := s.versions.table[e.source].entityId;
            var before, after := Snapshots(s, id), Snapshots(Step(s, e).0, id);
            && before != [] && after != []
            && (Newest(after).versionId == e.versionId <==> Newest(before).timestamp < e.now)
            && (Newest(after).versionId != e.versionId ==> Newest(after) == Newest(before))
  {
    RestoreAddsVersion(s, e.source, e.opId, e.conflictId, e.versionId, e.now);
    var id := s.versions.table[e.source].entityId;
    var before, after := Snapshots(s, id), Snapshots(Step(s, e).0, id);
    NewVersionId(s.versions, id, e.versionId);
    NewestAppend(before, after[|before|]);
  }

  // ---------------------------------------------------------------------------------------------
  // Runs in strictly increasing time
  // ---------------------------------------------------------------------------------------------

  /** Each submitting call happens later than everything recorded so far. */
  predicate TimedRun(events: seq<Event>)
  {
    events == [] ||
    (var init, e := events[..|events| - 1], events[|events| - 1];
     TimedRun(init) &&
     (e.Submit? || e.Restore? ==>
        forall v | v in Values(Run(init).versions) :: v.timestamp < e.now))
  }

  ghost predicate Timed(versions: Dict<Version>)
  {
    forall id :: StrictTimes(VersionsOf(Values(versions), id))
  }

  lemma AppendKeepsTimes(vs: seq<Version>, v: Version)
    requires StrictTimes(vs) && forall w :: w in vs ==> w.timestamp < v.timestamp
    ensures StrictTimes(vs + [v])
  {
    forall i | 0 <= i < |vs| ensures vs[i].timestamp < v.timestamp { assert vs[i] in vs; }
  }

  lemma PutKeepsTimes(versions: Dict<Version>, v: Version)
    requires Timed(versions) && v.versionId !in versions.table
    requires forall w :: w in Values(versions) ==> w.timestamp < v.timestamp
    ensures Timed(Put(versions, v.versionId, v))
  {
    SnapshotIsAddedLast(versions, v);
    VersionsOfMembers(Values(versions), v.entityId);
    AppendKeepsTimes(VersionsOf(Values(versions), v.entityId), v);
    var after := Put(versions, v.versionId, v);
    forall id ensures StrictTimes(VersionsOf(Values(after), id)) {
      if id != v.entityId { assert VersionsOf(Values(after), id) == VersionsOf(Values(versions), id); }
    }
  }

  lemma StepKeepsTimes(s: State, e: Event)
    requires Timed(s.versions) && FreshIds(s, e)
    requires e.Submit? || e.Restore? ==> forall v :: v in Values(s.versions) ==> v.timestamp < e.now
    ensures Timed(Step(s, e).0.versions)
  {
    var ch := StepIsEffect(s, e);
    if ch.ApplyOp? { PutKeepsTimes(s.versions, ch.version); }
  }

  lemma {:induction false} RunKeepsTimes(events: seq<Event>)
    requires FreshRun(events) && TimedRun(events)
    ensures Timed(Run(events).versions)
  {
    if events == [] {
    } else {
      RunKeepsTimes(events[..|events| - 1]);
      StepKeepsTimes(Run(events[..|events| - 1]), events[|events| - 1]);
    }
  }

  /** When time strictly increases, the versions of an entity are one chain, and the history listing
      is the walk along the parents from the newest version through all of them. */
  lemma HistoryIsParentWalk(events: seq<Event>, entityId: string)
    requires FreshRun(events) && TimedRun(events)
    ensures var vs := Snapshots(Run(events), entityId);
            var history := SortNewestFirst(vs);
            && IsChain(vs)
            && |history| == |vs|
            && (vs != [] ==> ParentWalk(history) && history[0] == Newest(vs))
  {
    RunKeepsLaw(events);
    RunKeepsTimes(events);
    assert Timed(Run(events).versions);
    HistoryWalks(Snapshots(Run(events), entityId));
  }

  /** The listing starts with the newest version. */
  lemma {:induction false} HistoryHead(vs: seq<Version>)
    requires vs != []
    ensures SortNewestFirst(vs) != [] && SortNewestFirst(vs)[0] == Newest(vs)
  {
    if |vs| == 1 {
    } else {
      HistoryHead(vs[..|vs| - 1]);
    }
  }

  lemma HistoryWalks(vs: seq<Version>)
    requires ParentLaw(vs) && DistinctVersionIds(vs) && StrictTimes(vs)
    ensures IsChain(vs) && |SortNewestFirst(vs)| == |vs|
    ensures vs != [] ==> ParentWalk(SortNewestFirst(vs)) && SortNewestFirst(vs)[0] == Newest(vs)
  {
    ChainExactly(vs);
    HistoryIsReversed(vs);
    if vs != [] {
      HistoryHead(vs);
      assert ParentAt(vs, 0);
      var history := SortNewestFirst(vs);
      forall i | 0 <= i < |history| - 1 ensures history[i].parent == Some(history[i + 1].versionId) {
        assert vs[|vs| - 1 - i].parent == Some(vs[|vs| - 2 - i].versionId);
      }
    }
  }

  /** The version created last is nobody's parent, so a walk through all versions starts with it. */
  lemma WalkStartsLast(vs: seq<Version>, walk: seq<Version>)
    requires ParentLaw(vs) && DistinctVersionIds(vs) && vs != []
    requires ParentWalk(walk) && multiset(walk) == multiset(vs)
    ensures walk[0] == vs[|vs| - 1]
  {
    var last := vs[|vs| - 1];
    forall i | 0 < i < |walk| ensures walk[i] != last {
      assert walk[i - 1] in multiset(vs) && walk[i] in multiset(vs);
      var j :| 0 <= j < |vs| && vs[j] == walk[i - 1];
      var m :| 0 <= m < |vs| && vs[m] == walk[i];
      var k := ParentsComeEarlier(vs, j);
      assert vs[j].parent == Some(vs[m].versionId) && m == k;
    }
    assert last in multiset(walk);
  }

  lemma Prefix(vs: seq<Version>)
    requires ParentLaw(vs) && DistinctVersionIds(vs) && vs != []
    ensures ParentLaw(vs[..|vs| - 1]) && DistinctVersionIds(vs[..|vs| - 1])
  {
    var init := vs[..|vs| - 1];
    forall i: nat | i < |init| ensures ParentAt(init, i) {
      assert ParentAt(vs, i) && init[..i] == vs[..i];
    }
  }

  /** If the listing is a parent walk, the version created last is later than all others, and the
      listing without it is a parent walk again. */
  lemma LastIsNewest(vs: seq<Version>) returns (init: seq<Version>)
    requires ParentLaw(vs) && DistinctVersionIds(vs) && |vs| > 1
    requires ParentWalk(SortNewestFirst(vs))
    ensures init == vs[..|vs| - 1] && ParentWalk(SortNewestFirst(init))
    ensures forall i :: 0 <= i < |init| ==> init[i].timestamp < vs[|vs| - 1].timestamp
  {
    init := vs[..|vs| - 1];
    var last, history, tail := vs[|vs| - 1], SortNewestFirst(vs), SortNewestFirst(init);
    HistoryIsSorted(vs, 0);
    WalkStartsLast(vs, history);
    HistoryHead(vs);
    var k := NewestAt(vs);
    assert vs[k].versionId == last.versionId && k == |vs| - 1;
    HistoryHead(init);
    var h := NewestAt(init);
    assert init[h] == vs[h] && tail[0].timestamp < last.timestamp;
    assert history == [last] + tail;
    TailIsWalk(last, tail);
  }

  lemma TailIsWalk(v: Version, tail: seq<Version>)
    requires ParentWalk([v] + tail) && tail != []
    ensures ParentWalk(tail)
  {
    forall i | 0 <= i < |tail| - 1 ensures tail[i].parent == Some(tail[i + 1].versionId) {
      assert tail[i] == ([v] + tail)[i + 1] && tail[i + 1] == ([v] + tail)[i + 2];
    }
  }

  lemma {:induction false} WalkMeansStrictTimes(vs: seq<Version>)
    requires ParentLaw(vs) && DistinctVersionIds(vs) && vs != []
    requires ParentWalk(SortNewestFirst(vs))
    ensures StrictTimes(vs)
  {
    if |vs| == 1 {
    } else {
      var init := LastIsNewest(vs);
      Prefix(vs);
      WalkMeansStrictTimes(init);
    }
  }

  /** In every reachable state the history listing of an entity with versions is a parent walk exactly
      when its timestamps strictly increase in the order of creation. */
  lemma HistoryIsParentWalkExactly(events: seq<Event>, entityId: string)
    requires FreshRun(events) && Snapshots(Run(events), entityId) != []
    ensures var vs := Snapshots(Run(events), entityId);
            ParentWalk(SortNewestFirst(vs)) <==> StrictTimes(vs)
  {
    RunKeepsLaw(events);
    WalkExactly(Snapshots(Run(events), entityId));
  }

  lemma WalkExactly(vs: seq<Version>)
    requires ParentLaw(vs) && DistinctVersionIds(vs) && vs != []
    ensures ParentWalk(SortNewestFirst(vs)) <==> StrictTimes(vs)
  {
    if StrictTimes(vs) { HistoryWalks(vs); }
    if ParentWalk(SortNewestFirst(vs)) { WalkMeansStrictTimes(vs); }
  }
}
