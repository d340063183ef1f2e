/** Vector clocks.  The value-level functions say what a clock means; the class holds a clock that
  is advanced and merged in place.  Clock entries are integers, as in the source: nothing there
  stops a client from sending a negative one. */
module VectorClocks {

  type Clock = map<string, int>

  /** A missing entry reads as zero. */
  function Get(c: Clock, client: string): int
  {
    if client in c then c[client] else 0
  }

  predicate HappensBefore(a: Clock, b: Clock)
  {
    var all := a.Keys + b.Keys;
    && (forall c | c in all :: Get(a, c) <= Get(b, c))
    && (exists c | c in all :: Get(a, c) < Get(b, c))
  }

  predicate Concurrent(a: Clock, b: Clock)
  {
    !HappensBefore(a, b) && !HappensBefore(b, a)
  }

  function Max(x: int, y: int): int { if x < y then y else x }

  /** The clock `a` holds after merging `b` into it. */
  function Join(a: Clock, b: Clock): Clock
  {
    map c | c in a.Keys + b.Keys :: if c in b then Max(Get(a, c), b[c]) else a[c]
  }

  class VectorClock {
    var clock: Clock

    constructor (clock: Clock)
      ensures this.clock == clock
    {
      this.clock := clock;
    }

    method Increment(clientId: string)
      modifies this
      ensures clock.Keys == old(clock).Keys + {clientId}
      ensures Get(clock, clientId) == Get(old(clock), clientId) + 1
      ensures forall c :: c != clientId ==> Get(clock, c) == Get(old(clock), c)
    {
      clock := clock[clientId := Get(clock, clientId) + 1];
    }

    method Merge(other: Clock)
      modifies this
      ensures clock == Join(old(clock), other)
    {
      var todo := other.Keys;
      while todo != {}
        invariant todo <= other.Keys
        invariant clock.Keys == old(clock).Keys + (other.Keys - todo)
        invariant forall c :: c in clock ==>
          clock[c] == if c in other && c !in todo then Max(Get(old(clock), c), other[c]) else old(clock)[c]
      {
        var clientId :| clientId in todo;
        clock := clock[clientId := Max(Get(clock, clientId), other[clientId])];
        todo := todo - {clientId};
      }
    }
  }

  /** Entry-wise comparison over every client there could be. */
  ghost predicate Below(a: Clock, b: Clock)
  {
    forall c :: Get(a, c) <= Get(b, c)
  }

  ghost predicate SameEntries(a: Clock, b: Clock)
  {
    forall c :: Get(a, c) == Get(b, c)
  }

  /** The test over the union of the two key sets decides the entry-wise order on all clients. */
  lemma HappensBeforeIsStrictlyBelow(a: Clock, b: Clock)
    ensures HappensBefore(a, b) <==> Below(a, b) && !SameEntries(a, b)
  {
  }

  /** `HappensBefore` is a strict partial order on clocks up to zero entries. */
  lemma HappensBeforeIsStrictOrder(a: Clock, b: Clock, c: Clock)
    ensures !HappensBefore(a, a)
    ensures HappensBefore(a, b) ==> !HappensBefore(b, a)
    ensures HappensBefore(a, b) && HappensBefore(b, c) ==> HappensBefore(a, c)
    ensures SameEntries(a, b) ==>
      (HappensBefore(a, c) <==> HappensBefore(b, c)) && (HappensBefore(c, a) <==> HappensBefore(c, b))
  {
    HappensBeforeIsStrictlyBelow(a, b);
    HappensBeforeIsStrictlyBelow(b, a);
    HappensBeforeIsStrictlyBelow(b, c);
    HappensBeforeIsStrictlyBelow(a, c);
    HappensBeforeIsStrictlyBelow(c, a);
    HappensBeforeIsStrictlyBelow(c, b);
    if HappensBefore(a, b) && HappensBefore(b, c) {
      var d :| Get(a, d) != Get(b, d);
      assert Get(a, d) < Get(b, d) <= Get(c, d);
    }
  }

  /** Clocks with the same entries count as concurrent. */
  lemma EqualClocksAreConcurrent(a: Clock, b: Clock)
    ensures Concurrent(a, b) <==> SameEntries(a, b) || (!Below(a, b) && !Below(b, a))
  {
  }

  /** No negative entry of `a` is left untouched by a merge of `b`. */
  predicate NoNegativeOutside(a: Clock, b: Clock)
  {
    forall c | c in a && c !in b :: a[c] >= 0
  }

  /** Merging always stays below any common bound, and it is itself a bound exactly when the
      receiving clock has no negative entry outside the other's: then it is the least upper bound. */
  lemma JoinIsLeastUpperBound(a: Clock, b: Clock)
    ensures Below(a, Join(a, b))
    ensures Below(b, Join(a, b)) <==> NoNegativeOutside(a, b)
    ensures forall u: Clock :: Below(a, u) && Below(b, u) ==> Below(Join(a, b), u)
  {
    if Below(b, Join(a, b)) {
      forall c | c in a && c !in b ensures a[c] >= 0 {
        assert Get(b, c) <= Get(Join(a, b), c);
      }
    }
    forall u: Clock | Below(a, u) && Below(b, u) ensures Below(Join(a, b), u) {
      forall c ensures Get(Join(a, b), c) <= Get(u, c) {
        assert Get(a, c) <= Get(u, c) && Get(b, c) <= Get(u, c);
      }
    }
  }

  /** Merging commutes, as a map, exactly when neither clock has a negative entry of its own. */
  lemma JoinCommutesExactly(a: Clock, b: Clock)
    ensures Join(a, b) == Join(b, a) <==> NoNegativeOutside(a, b) && NoNegativeOutside(b, a)
  {
    var ab, ba := Join(a, b), Join(b, a);
    if ab == ba {
      forall c | c in a && c !in b ensures a[c] >= 0 { assert ab[c] == ba[c]; }
      forall c | c in b && c !in a ensures b[c] >= 0 { assert ab[c] == ba[c]; }
    }
  }
}
