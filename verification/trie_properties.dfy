/** What a trie built by `New` from ascending keys answers, stated over the
    keys and values it was given, before and after squashing. */
module TrieProperties {
  import opened Keys
  import opened TrieNode
  import opened EntryLists
  import opened Insert
  import opened TernarySearch
  import opened Squashing

  /** The answer a sorted key list promises for the query `q`: the value
      of the greatest key below `q`, of `q` itself, of the smallest key above. */
  ghost predicate Nearest<V>(keys: seq<Key>, values: seq<V>, q: Key, r: Answer<V>)
    requires |keys| == |values|
  {
    && (forall j :: 0 <= j < |keys| && keys[j] == q ==> r.eq == Some(values[j]))
    && ((forall j :: 0 <= j < |keys| ==> keys[j] != q) ==> r.eq == None)
    && (forall j :: 0 <= j < |keys| && Greatest(keys, q, j) ==>
          r.lt == Some(values[j]))
    && ((forall j :: 0 <= j < |keys| ==> !Less(keys[j], q)) ==> r.lt == None)
    && (forall j :: 0 <= j < |keys| && Smallest(keys, q, j) ==>
          r.gt == Some(values[j]))
    && ((forall j :: 0 <= j < |keys| ==> !Less(q, keys[j])) ==> r.gt == None)
  }

  /** keys[j] is the greatest key below q, in a sorted key list. */
  ghost predicate Greatest(keys: seq<Key>, q: Key, j: nat)
    requires j < |keys|
  {
    Less(keys[j], q) && (j + 1 == |keys| || !Less(keys[j + 1], q))
  }

  /** keys[j] is the smallest key above q, in a sorted key list. */
  ghost predicate Smallest(keys: seq<Key>, q: Key, j: nat)
    requires j < |keys|
  {
    Less(q, keys[j]) && (j == 0 || !Less(q, keys[j - 1]))
  }

  lemma ZipSorted<V>(keys: seq<Key>, values: seq<V>)
    requires |keys| == |values| && StrictlyAscending(keys)
    ensures SortedKeys(Zip(keys, values))
  {
  }

  lemma QueryEq<V>(keys: seq<Key>, values: seq<V>, q: Key)
    requires |keys| == |values| && StrictlyAscending(keys)
    ensures forall j :: 0 <= j < |keys| && keys[j] == q ==> Lookup(Zip(keys, values), q) == Some(values[j])
    ensures (forall j :: 0 <= j < |keys| ==> keys[j] != q) ==> Lookup(Zip(keys, values), q) == None
  {
    var z := Zip(keys, values);
    ZipSorted(keys, values);
    if forall j :: 0 <= j < |keys| ==> keys[j] != q {
      LookupAbsent(z, q);
    }
    forall j | 0 <= j < |keys| && keys[j] == q ensures Lookup(Zip(keys, values), q) == Some(values[j]) {
      SortedLookup(z, j);
    }
  }


  lemma QueryLt<V>(keys: seq<Key>, values: seq<V>, q: Key)
    requires |keys| == |values| && StrictlyAscending(keys)
    ensures forall j :: 0 <= j < |keys| && Greatest(keys, q, j) ==>
      LastBelow(Zip(keys, values), q) == Some(values[j])
    ensures (forall j :: 0 <= j < |keys| ==> !Less(keys[j], q)) ==> LastBelow(Zip(keys, values), q) == None
  {
    if forall j :: 0 <= j < |keys| ==> !Less(keys[j], q) {
      LastBelowNone(Zip(keys, values), q);
    }
    forall j | 0 <= j < |keys| && Greatest(keys, q, j)
      ensures LastBelow(Zip(keys, values), q) == Some(values[j])
    {
      QueryLtAt(keys, values, q, j);
    }
  }

  lemma QueryLtAt<V>(keys: seq<Key>, values: seq<V>, q: Key, j: nat)
    requires |keys| == |values| && StrictlyAscending(keys)
    requires j < |keys| && Greatest(keys, q, j)
    ensures LastBelow(Zip(keys, values), q) == Some(values[j])
  {
    ZipSorted(keys, values);
    SortedLastBelow(Zip(keys, values), q, j);
  }

  lemma QueryGt<V>(keys: seq<Key>, values: seq<V>, q: Key)
    requires |keys| == |values| && StrictlyAscending(keys)
    ensures forall j :: 0 <= j < |keys| && Smallest(keys, q, j) ==>
      FirstAbove(Zip(keys, values), q) == Some(values[j])
    ensures (forall j :: 0 <= j < |keys| ==> !Less(q, keys[j])) ==> FirstAbove(Zip(keys, values), q) == None
  {
    if forall j :: 0 <= j < |keys| ==> !Less(q, keys[j]) {
      FirstAboveNone(Zip(keys, values), q);
    }
    forall j | 0 <= j < |keys| && Smallest(keys, q, j)
      ensures FirstAbove(Zip(keys, values), q) == Some(values[j])
    {
      QueryGtAt(keys, values, q, j);
    }
  }

  lemma QueryGtAt<V>(keys: seq<Key>, values: seq<V>, q: Key, j: nat)
    requires |keys| == |values| && StrictlyAscending(keys)
    requires j < |keys| && Smallest(keys, q, j)
    ensures FirstAbove(Zip(keys, values), q) == Some(values[j])
  {
    ZipSorted(keys, values);
    SortedFirstAbove(Zip(keys, values), q, j);
  }

  /** `New` on strictly ascending keys, then `Search`: the exact match is
      the value paired with the query, the lower neighbour the value of the
      greatest smaller key, the upper neighbour that of the smallest larger
      key; each is absent when there is no such key. */
  lemma SearchNew<V>(keys: seq<Key>, values: seq<V>, q: Key)
    requires |keys| == |values| && |keys| > 0 && StrictlyAscending(keys)
    ensures New(keys, Slice(values)).Ok?
    ensures var t := New(keys, Slice(values)).value;
      && Shaped(t) && |t.branches| > 0
      && Nearest(keys, values, q, Search(t, q))
  {
    NewBuilds(keys, values);
    var t := New(keys, Slice(values)).value;
    SearchIsQuery(t, q);
    QueryEq(keys, values, q);
    QueryLt(keys, values, q);
    QueryGt(keys, values, q);
  }

  /** A squashed trie built by `New` still answers every stored key
      exactly like the reference: its own value, and the values of the
      nearest stored keys on either side. */
  lemma SearchSquashedNew<V>(keys: seq<Key>, values: seq<V>, j: nat)
    requires |keys| == |values| && StrictlyAscending(keys) && j < |keys|
    ensures New(keys, Slice(values)).Ok?
    ensures var t := New(keys, Slice(values)).value;
      && Shaped(t) && |t.branches| > 0
      && Shaped(Squash(t)) && |Squash(t).branches| > 0
      && Nearest(keys, values, keys[j], Search(Squash(t), keys[j]))
  {
    NewBuilds(keys, values);
    var t := New(keys, Slice(values)).value;
    assert Entries(t)[j].key == keys[j];
    SearchSquashed(t, keys[j]);
    SearchNew(keys, values, keys[j]);
  }
}
