/** Nested payload documents and the recursive, right-biased merge behind the CRDT strategy.

  A document is observed through paths: the shape at a path is either nothing, a leaf with its
  text, or an inner dictionary.  Shapes at all paths determine a document (`Extensionality`), so
  the path law of `Merge` (`MergeShape`) fixes the merge completely.
 */
module DeepMerge {

  /** Any non-dictionary value (number, string, list, null, ...) is an `Atom`. */
  datatype Json = Atom(text: string) | Dict(fields: map<string, Json>)

  type Document = j: Json | j.Dict? witness Dict(map[])

  type Path = seq<string>

  datatype Shape = Absent | Leaf(text: string) | Branch

  const EMPTY: Document := Dict(map[])

  /** What the merge leaves at one place: two dictionaries are merged, anything else is replaced. */
  function Merge(a: Json, b: Json): (r: Json)
    ensures b.Dict? ==> r.Dict?
    decreases b
  {
    if a.Dict? && b.Dict? then
      Dict(map k | k in a.fields.Keys + b.fields.Keys ::
             if k !in b.fields then a.fields[k]
             else if k in a.fields then Merge(a.fields[k], b.fields[k])
             else b.fields[k])
    else b
  }

  /** The merge as the resolver runs it: copy the first dictionary, then walk over the items of
      the second in whatever order they come. */
  method MergeDicts(dict1: Document, dict2: Document) returns (result: Document)
    ensures result == Merge(dict1, dict2)
    decreases dict2
  {
    var fields := dict1.fields;
    var todo := dict2.fields.Keys;
    while todo != {}
      invariant todo <= dict2.fields.Keys
      invariant fields.Keys == dict1.fields.Keys + (dict2.fields.Keys - todo)
      invariant forall k :: k in fields ==>
        fields[k] == if k in dict2.fields && k !in todo then Merge(dict1, dict2).fields[k]
                     else dict1.fields[k]
      decreases todo
    {
      var key :| key in todo;
      var value := dict2.fields[key];
      if key in fields && fields[key].Dict? && value.Dict? {
        var inner := MergeDicts(fields[key], value);
        fields := fields[key := inner];
      } else {
        fields := fields[key := value];
      }
      todo := todo - {key};
    }
    result := Dict(fields);
  }

  /** The shape of a document at a path. */
  function ShapeAt(d: Json, p: Path): Shape
  {
    if p == [] then
      match d case Atom(text) => Leaf(text) case Dict(_) => Branch
    else if d.Dict? && p[0] in d.fields then ShapeAt(d.fields[p[0]], p[1..])
    else Absent
  }

  /** A non-dictionary value of `d` sits at a proper prefix of `p`. */
  ghost predicate Blocks(d: Json, p: Path)
  {
    exists i :: 0 <= i < |p| && ShapeAt(d, p[..i]).Leaf?
  }

  lemma BlocksStep(d: Json, p: Path)
    requires p != []
    ensures Blocks(d, p) <==> d.Atom? || (p[0] in d.fields && Blocks(d.fields[p[0]], p[1..]))
  {
    if d.Atom? {
      assert ShapeAt(d, p[..0]).Leaf?;
    } else {
      if Blocks(d, p) {
        var i :| 0 <= i < |p| && ShapeAt(d, p[..i]).Leaf?;
        assert i > 0 && p[..i][0] == p[0] && p[..i][1..] == p[1..][..i - 1];
      }
      if p[0] in d.fields && Blocks(d.fields[p[0]], p[1..]) {
        var i :| 0 <= i < |p[1..]| && ShapeAt(d.fields[p[0]], p[1..][..i]).Leaf?;
        assert p[..i + 1][0] == p[0] && p[..i + 1][1..] == p[1..][..i];
        assert ShapeAt(d, p[..i + 1]).Leaf?;
      }
    }
  }

  /** Something at `p` means only dictionaries above `p`. */
  lemma {:induction false} PrefixIsBranch(d: Json, p: Path, i: nat)
    requires ShapeAt(d, p) != Absent && i < |p|
    ensures ShapeAt(d, p[..i]) == Branch
  {
    if i == 0 {
    } else {
      PrefixIsBranch(d.fields[p[0]], p[1..], i - 1);
      assert p[..i][0] == p[0] && p[..i][1..] == p[1..][..i - 1];
    }
  }

  /** The path law: the second document decides wherever it has something, hides what lies below
      its leaves, and leaves everything else to the first document. */
  lemma {:induction false} MergeShape(a: Json, b: Json, p: Path)
    ensures ShapeAt(Merge(a, b), p) ==
            if ShapeAt(b, p) != Absent then ShapeAt(b, p)
            else if Blocks(b, p) then Absent
            else ShapeAt(a, p)
  {
    if p == [] {
    } else {
      BlocksStep(b, p);
      if a.Dict? && b.Dict? && p[0] in a.fields && p[0] in b.fields {
        MergeShape(a.fields[p[0]], b.fields[p[0]], p[1..]);
      }
    }
  }

  /** Leaves of the merge: all of the second document's, and exactly those of the first that the
      second neither replaces nor hides. */
  lemma MergeLeaves(a: Json, b: Json, p: Path, text: string)
    ensures ShapeAt(Merge(a, b), p) == Leaf(text) <==>
            || ShapeAt(b, p) == Leaf(text)
            || (ShapeAt(a, p) == Leaf(text) && ShapeAt(b, p) == Absent && !Blocks(b, p))
  {
    MergeShape(a, b, p);
  }

  lemma ShapeBelow(d: Json, k: string, q: Path)
    requires d.Dict?
    ensures ShapeAt(d, [k] + q) == if k in d.fields then ShapeAt(d.fields[k], q) else Absent
    ensures k in d.fields && q == [] ==> ShapeAt(d, [k] + q) != Absent
  {
    assert ([k] + q)[0] == k && ([k] + q)[1..] == q;
  }

  /** Documents with the same shape at every path are equal. */
  lemma {:induction false} Extensionality(x: Json, y: Json)
    requires forall p :: ShapeAt(x, p) == ShapeAt(y, p)
    ensures x == y
    decreases x
  {
    assert ShapeAt(x, []) == ShapeAt(y, []);
    if x.Atom? {
    } else {
      forall k
        ensures k in x.fields <==> k in y.fields
        ensures k in x.fields && k in y.fields ==> x.fields[k] == y.fields[k]
      {
        ShapeBelow(x, k, []);
        ShapeBelow(y, k, []);
        assert ShapeAt(x, [k] + []) == ShapeAt(y, [k] + []);
        if k in x.fields {
          forall q ensures ShapeAt(x.fields[k], q) == ShapeAt(y.fields[k], q) {
            ShapeBelow(x, k, q);
            ShapeBelow(y, k, q);
            assert ShapeAt(x, [k] + q) == ShapeAt(y, [k] + q);
          }
          Extensionality(x.fields[k], y.fields[k]);
        }
      }
      assert x.fields == y.fields;
    }
  }

  /** The empty document is neutral on both sides; merging again changes nothing. */
  lemma MergeLaws(a: Document, b: Document)
    ensures Merge(EMPTY, a) == a == Merge(a, EMPTY)
    ensures Merge(a, a) == a
    ensures Merge(Merge(a, b), b) == Merge(a, b)
  {
    forall p ensures ShapeAt(Merge(a, a), p) == ShapeAt(a, p) {
      MergeShape(a, a, p);
      if Blocks(a, p) && ShapeAt(a, p) != Absent {
        var i :| 0 <= i < |p| && ShapeAt(a, p[..i]).Leaf?;
        PrefixIsBranch(a, p, i);
      }
    }
    Extensionality(Merge(a, a), a);
    forall p ensures ShapeAt(Merge(Merge(a, b), b), p) == ShapeAt(Merge(a, b), p) {
      MergeShape(Merge(a, b), b, p);
      MergeShape(a, b, p);
    }
    Extensionality(Merge(Merge(a, b), b), Merge(a, b));
    assert Merge(EMPTY, a).Dict? && Merge(EMPTY, a).fields == a.fields;
    assert Merge(a, EMPTY).fields == a.fields;
  }

  /** Two documents are compatible when every key they share holds the same leaf or two
      compatible dictionaries. */
  predicate Compatible(a: Json, b: Json)
  {
    if a.Dict? && b.Dict? then
      forall k | k in a.fields && k in b.fields :: Compatible(a.fields[k], b.fields[k])
    else a == b
  }

  lemma {:induction false} CompatibleShapes(a: Json, b: Json, p: Path)
    requires Compatible(a, b)
    ensures ShapeAt(a, p) != Absent && ShapeAt(b, p) != Absent ==> ShapeAt(a, p) == ShapeAt(b, p)
  {
    if p != [] && a.Dict? && b.Dict? && p[0] in a.fields && p[0] in b.fields {
      CompatibleShapes(a.fields[p[0]], b.fields[p[0]], p[1..]);
    }
  }

  /** Incompatible documents disagree at some path where both have something. */
  lemma {:induction false} IncompatiblePath(a: Json, b: Json) returns (p: Path)
    requires !Compatible(a, b)
    ensures ShapeAt(a, p) != Absent && ShapeAt(b, p) != Absent
    ensures ShapeAt(a, p) != ShapeAt(b, p)
    decreases a
  {
    if a.Dict? && b.Dict? {
      var k :| k in a.fields && k in b.fields && !Compatible(a.fields[k], b.fields[k]);
      var q := IncompatiblePath(a.fields[k], b.fields[k]);
      p := [k] + q;
      assert p[1..] == q;
    } else {
      p := [];
    }
  }

  /** What a compatible document says at a path cannot hide anything below it. */
  lemma CompatibleNeverBlocks(a: Json, b: Json, p: Path)
    requires Compatible(a, b) && ShapeAt(a, p) != Absent
    ensures !Blocks(b, p)
  {
    if Blocks(b, p) {
      var i :| 0 <= i < |p| && ShapeAt(b, p[..i]).Leaf?;
      PrefixIsBranch(a, p, i);
      CompatibleShapes(a, b, p[..i]);
    }
  }

  lemma {:induction false} CompatibleSymmetric(a: Json, b: Json)
    requires Compatible(a, b)
    ensures Compatible(b, a)
    decreases a
  {
    if a.Dict? && b.Dict? {
      forall k | k in a.fields && k in b.fields ensures Compatible(b.fields[k], a.fields[k]) {
        CompatibleSymmetric(a.fields[k], b.fields[k]);
      }
    }
  }

  /** Compatibility is the exact condition under which the two merge orders agree. */
  lemma MergeCommutesExactly(a: Json, b: Json)
    ensures Merge(a, b) == Merge(b, a) <==> Compatible(a, b)
  {
    if Compatible(a, b) {
      CompatibleSymmetric(a, b);
      forall p ensures ShapeAt(Merge(a, b), p) == ShapeAt(Merge(b, a), p) {
        MergeShape(a, b, p);
        MergeShape(b, a, p);
        CompatibleShapes(a, b, p);
        if ShapeAt(a, p) != Absent { CompatibleNeverBlocks(a, b, p); }
        if ShapeAt(b, p) != Absent { CompatibleNeverBlocks(b, a, p); }
      }
      Extensionality(Merge(a, b), Merge(b, a));
    } else {
      var p := IncompatiblePath(a, b);
      MergeShape(a, b, p);
      MergeShape(b, a, p);
    }
  }

  /** A dictionary, a leaf and a dictionary meeting at `q`: the leaf hides what the first document
      has below `q` from one grouping of the three, but not from the other. */
  ghost predicate Sandwich(a: Json, b: Json, c: Json, q: Path, p: Path)
  {
    && q < p
    && ShapeAt(b, q).Leaf? && ShapeAt(c, q) == Branch
    && ShapeAt(a, p) != Absent && ShapeAt(c, p) == Absent && !Blocks(c, p)
  }

  lemma PrefixNotBlocked(d: Json, p: Path, i: nat)
    requires !Blocks(d, p) && i < |p|
    ensures !Blocks(d, p[..i]) && !ShapeAt(d, p[..i]).Leaf?
  {
    forall j | 0 <= j < i ensures !ShapeAt(d, p[..i][..j]).Leaf? {
      assert p[..i][..j] == p[..j];
    }
  }

  lemma NestedBlocks(b: Json, c: Json, p: Path)
    requires !Blocks(c, p)
    ensures Blocks(Merge(b, c), p) <==>
            exists i :: 0 <= i < |p| && ShapeAt(b, p[..i]).Leaf? && ShapeAt(c, p[..i]) == Absent
  {
    forall i | 0 <= i < |p|
      ensures ShapeAt(Merge(b, c), p[..i]).Leaf? <==>
              ShapeAt(b, p[..i]).Leaf? && ShapeAt(c, p[..i]) == Absent
    {
      MergeShape(b, c, p[..i]);
      PrefixNotBlocked(c, p, i);
    }
  }

  /** The two groupings differ at a path only where a sandwich hides what the first document has. */
  lemma GroupingsAt(a: Json, b: Json, c: Json, p: Path)
    ensures var left, right := ShapeAt(Merge(Merge(a, b), c), p), ShapeAt(Merge(a, Merge(b, c)), p);
            if ShapeAt(c, p) != Absent || Blocks(c, p) || ShapeAt(b, p) != Absent then left == right
            else left == (if Blocks(b, p) then Absent else ShapeAt(a, p)) &&
                 right == (if Blocks(Merge(b, c), p) then Absent else ShapeAt(a, p))
  {
    MergeShape(Merge(a, b), c, p);
    MergeShape(a, b, p);
    MergeShape(a, Merge(b, c), p);
    MergeShape(b, c, p);
    if ShapeAt(c, p) == Absent && Blocks(c, p) {
      var i :| 0 <= i < |p| && ShapeAt(c, p[..i]).Leaf?;
      MergeShape(b, c, p[..i]);
      assert ShapeAt(Merge(b, c), p[..i]).Leaf?;
    }
  }

  lemma DifferenceIsSandwich(a: Json, b: Json, c: Json, p: Path) returns (q: Path)
    requires ShapeAt(Merge(Merge(a, b), c), p) != ShapeAt(Merge(a, Merge(b, c)), p)
    ensures Sandwich(a, b, c, q, p)
  {
    GroupingsAt(a, b, c, p);
    NestedBlocks(b, c, p);
    var i :| 0 <= i < |p| && ShapeAt(b, p[..i]).Leaf?;
    PrefixNotBlocked(c, p, i);
    q := p[..i];
  }

  lemma SandwichSplits(a: Json, b: Json, c: Json, q: Path, p: Path)
    requires Sandwich(a, b, c, q, p)
    ensures ShapeAt(Merge(Merge(a, b), c), p) != ShapeAt(Merge(a, Merge(b, c)), p)
  {
    assert p[..|q|] == q;
    assert Blocks(b, p);
    if ShapeAt(b, p) != Absent { PrefixIsBranch(b, p, |q|); }
    GroupingsAt(a, b, c, p);
    if Blocks(Merge(b, c), p) {
      NestedBlocks(b, c, p);
      var i :| 0 <= i < |p| && ShapeAt(b, p[..i]).Leaf? && ShapeAt(c, p[..i]) == Absent;
      if i < |q| {
        assert q[..i] == p[..i];
        PrefixIsBranch(b, q, i);
      } else {
        assert p[..i][..|q|] == q;
        PrefixIsBranch(b, p[..i], |q|);
      }
    }
  }

  /** Merging is associative on three documents exactly when nothing is sandwiched. */
  lemma MergeAssociatesExactly(a: Json, b: Json, c: Json)
    ensures Merge(Merge(a, b), c) == Merge(a, Merge(b, c)) <==>
            forall q, p :: !Sandwich(a, b, c, q, p)
  {
    var left, right := Merge(Merge(a, b), c), Merge(a, Merge(b, c));
    if forall q, p :: !Sandwich(a, b, c, q, p) {
      forall p ensures ShapeAt(left, p) == ShapeAt(right, p) {
        if ShapeAt(left, p) != ShapeAt(right, p) {
          var q := DifferenceIsSandwich(a, b, c, p);
        }
      }
      Extensionality(left, right);
    } else {
      var q, p :| Sandwich(a, b, c, q, p);
      SandwichSplits(a, b, c, q, p);
    }
  }

  /** Merging a list of payloads from left to right, starting from nothing. */
  function MergeAll(docs: seq<Document>): Document
  {
    if docs == [] then EMPTY
    else Merge(MergeAll(docs[..|docs| - 1]), docs[|docs| - 1])
  }

  ghost predicate PairwiseCompatible(docs: seq<Document>)
  {
    forall x, y :: x in docs && y in docs ==> Compatible(x, y)
  }

  /** The last payload keeps everything it says. */
  lemma LastPayloadWins(docs: seq<Document>, p: Path)
    requires docs != [] && ShapeAt(docs[|docs| - 1], p) != Absent
    ensures ShapeAt(MergeAll(docs), p) == ShapeAt(docs[|docs| - 1], p)
  {
    MergeShape(MergeAll(docs[..|docs| - 1]), docs[|docs| - 1], p);
  }

  /** Merging compatible payloads is taking their union: what the result says at a path is what
      some payload says there. */
  lemma {:induction false} MergeAllIsUnion(docs: seq<Document>, p: Path, shape: Shape)
    requires PairwiseCompatible(docs) && p != [] && shape != Absent
    ensures ShapeAt(MergeAll(docs), p) == shape <==> exists d :: d in docs && ShapeAt(d, p) == shape
  {
    if docs == [] {
    } else {
      var init, last := docs[..|docs| - 1], docs[|docs| - 1];
      assert docs == init + [last];
      MergeAllIsUnion(init, p, shape);
      MergeShape(MergeAll(init), last, p);
      forall d | d in init && ShapeAt(d, p) == shape
        ensures !Blocks(last, p) && (ShapeAt(last, p) == Absent || ShapeAt(last, p) == shape)
      {
        CompatibleNeverBlocks(d, last, p);
        CompatibleShapes(d, last, p);
      }
    }
  }

  /** Compatible payloads merge to the same document in any order, and repeats do not matter. */
  lemma MergeAllIgnoresOrder(docs: seq<Document>, other: seq<Document>)
    requires PairwiseCompatible(docs)
    requires forall d :: d in docs <==> d in other
    ensures MergeAll(docs) == MergeAll(other)
  {
    forall p ensures ShapeAt(MergeAll(docs), p) == ShapeAt(MergeAll(other), p) {
      if p != [] {
        var here, there := ShapeAt(MergeAll(docs), p), ShapeAt(MergeAll(other), p);
        if here != Absent { MergeAllIsUnion(docs, p, here); MergeAllIsUnion(other, p, here); }
        if there != Absent { MergeAllIsUnion(docs, p, there); MergeAllIsUnion(other, p, there); }
      }
    }
    Extensionality(MergeAll(docs), MergeAll(other));
  }
}
