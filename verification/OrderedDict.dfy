/** A dictionary that remembers insertion order, as the service's tables do: overwriting a key
  keeps its place, and iteration over the values follows the order in which keys arrived. */
module OrderedDict {

  datatype Raw<V> = Raw(order: seq<string>, table: map<string, V>) {
    ghost predicate Valid() {
      && (forall k :: k in order <==> k in table)
      && (forall i, j :: 0 <= i < j < |order| ==> order[i] != order[j])
    }
  }

  type Dict<V> = d: Raw<V> | d.Valid() witness Raw([], map[])

  function Put<V>(d: Dict<V>, key: string, value: V): (r: Dict<V>)
    ensures r.table == d.table[key := value]
    ensures r.order == if key in d.table then d.order else d.order + [key]
  {
    if key in d.table then
      Raw(d.order, d.table[key := value])
    else
      var r := Raw(d.order + [key], d.table[key := value]);
      assert forall k :: k in r.order <==> k in d.order || k == key;
      assert d.Valid() && key !in d.order;
      r
  }

  function Values<V>(d: Dict<V>): seq<V>
  {
    seq(|d.order|, i requires 0 <= i < |d.order| => d.table[d.order[i]])
  }

  /** Every key of the table is met once, in the order of arrival, and the values are theirs. */
  lemma ValuesOfTable<V>(d: Dict<V>)
    ensures |Values(d)| == |d.order| == |d.table|
    ensures forall i :: 0 <= i < |d.order| ==> d.order[i] in d.table && Values(d)[i] == d.table[d.order[i]]
    ensures forall i, j :: 0 <= i < j < |d.order| ==> d.order[i] != d.order[j]
    ensures forall k :: k in d.table ==> d.table[k] in Values(d)
    ensures forall v :: v in Values(d) ==> exists k :: k in d.table && d.table[k] == v
  {
    SizeIsLength(d.order, d.table);
    forall k | k in d.table ensures d.table[k] in Values(d) {
      var i :| 0 <= i < |d.order| && d.order[i] == k;
      assert Values(d)[i] == d.table[k];
    }
  }

  /** A new key's value comes last. */
  lemma PutAppends<V>(d: Dict<V>, key: string, value: V)
    requires key !in d.table
    ensures Values(Put(d, key, value)) == Values(d) + [value]
  {
  }

  /** As many keys in order as in the table. */
  lemma SizeIsLength<V>(order: seq<string>, table: map<string, V>)
    requires Raw(order, table).Valid()
    ensures |order| == |table|
  {
    DistinctCount(order);
    assert table.Keys == set k | k in order;
  }

  lemma {:induction false} DistinctCount(order: seq<string>)
    requires forall i, j :: 0 <= i < j < |order| ==> order[i] != order[j]
    ensures |set k | k in order| == |order|
  {
    if order == [] {
    } else {
      var init, last := order[..|order| - 1], order[|order| - 1];
      DistinctCount(init);
      assert (set k | k in order) == (set k | k in init) + {last};
      assert last !in init;
    }
  }
}
