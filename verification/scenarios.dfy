/** Worked examples: concrete inputs and what the trie answers for them. */
module Scenarios {
  import opened Keys
  import opened Branches
  import opened TrieNode
  import opened EntryLists
  import opened Insert
  import opened TernarySearch
  import opened TrieProperties

  /** The keys 10, 20, ..., 60, one byte each, each mapped to itself. */
  function Decades(): seq<Key>
  {
    [[10], [20], [30], [40], [50], [60]]
  }

  function DecadeValues(): seq<int>
  {
    [10, 20, 30, 40, 50, 60]
  }

  ghost function DecadeEntries(): seq<Entry<int>>
  {
    [Entry([10], 10, false, false), Entry([20], 20, false, false), Entry([30], 30, false, false),
     Entry([40], 40, false, false), Entry([50], 50, false, false), Entry([60], 60, false, false)]
  }

  lemma DecadesAscending()
    ensures StrictlyAscending(Decades())
  {
    var ks := Decades();
    forall i, j | 0 <= i < j < |ks| ensures Less(ks[i], ks[j]) {
      assert ks[i][0] < ks[j][0];
    }
  }

  /** The trie `New` builds from the decades stores them in order. The
      keys are passed as parameters so that `New` is unfolded only as far
      as the general lemmas need. */
  lemma DecadeTrieOf(ks: seq<Key>, vs: seq<int>) returns (t: Node<int>)
    requires ks == Decades() && vs == DecadeValues()
    ensures New(ks, Slice(vs)) == Ok(t)
    ensures Shaped(t) && Ordered(t) && UnitSteps(t) && |t.branches| > 0
    ensures Entries(t) == DecadeEntries()
  {
    DecadesAscending();
    NewBuilds(ks, vs);
    t := New(ks, Slice(vs)).value;
    DecadeZip(ks, vs);
  }

  lemma DecadeZip(ks: seq<Key>, vs: seq<int>)
    requires ks == Decades() && vs == DecadeValues()
    ensures Zip(ks, vs) == DecadeEntries()
  {
    var z, es := Zip(ks, vs), DecadeEntries();
    forall i | 0 <= i < 6 ensures z[i] == es[i] {
      assert ks[i] == [(10 * (i + 1)) as Byte] && vs[i] == 10 * (i + 1);
    }
  }

  lemma DecadeTrie() returns (t: Node<int>)
    ensures New(Decades(), Slice(DecadeValues())) == Ok(t)
    ensures Shaped(t) && Ordered(t) && UnitSteps(t) && |t.branches| > 0
    ensures Entries(t) == DecadeEntries()
  {
    t := DecadeTrieOf(Decades(), DecadeValues());
  }

  lemma DecadesSorted()
    ensures SortedKeys(DecadeEntries())
  {
    DecadesAscending();
    ZipSorted(Decades(), DecadeValues());
    assert Zip(Decades(), DecadeValues()) == DecadeEntries();
  }

  lemma BetweenBelow(es: seq<Entry<int>>)
    requires es == DecadeEntries()
    ensures LastBelow(es, [25]) == Some(20)
  {
    DecadesSorted();
    assert Less(es[1].key, [25]) && !Less(es[2].key, [25]);
    SortedLastBelow(es, [25], 1);
  }

  lemma BetweenAbove(es: seq<Entry<int>>)
    requires es == DecadeEntries()
    ensures FirstAbove(es, [25]) == Some(30)
  {
    DecadesSorted();
    assert Less([25], es[2].key) && !Less([25], es[1].key);
    SortedFirstAbove(es, [25], 2);
  }

  lemma BetweenAbsent(es: seq<Entry<int>>)
    requires es == DecadeEntries()
    ensures Lookup(es, [25]) == None
  {
    LookupAbsent(es, [25]);
  }

  /** 25 lies between 20 and 30 and is not stored. */
  lemma SearchBetween(t: Node<int>)
    requires Shaped(t) && Ordered(t) && UnitSteps(t) && |t.branches| > 0
    requires Entries(t) == DecadeEntries()
    ensures Search(t, [25]) == Answer(Some(20), None, Some(30))
  {
    SearchIsQuery(t, [25]);
    BetweenBelow(Entries(t));
    BetweenAbove(Entries(t));
    BetweenAbsent(Entries(t));
  }

  lemma StoredSelf(es: seq<Entry<int>>)
    requires es == DecadeEntries()
    ensures Lookup(es, [10]) == Some(10)
  {
    DecadesSorted();
    SortedLookup(es, 0);
  }

  lemma StoredAbove(es: seq<Entry<int>>)
    requires es == DecadeEntries()
    ensures FirstAbove(es, [10]) == Some(20)
  {
    DecadesSorted();
    assert Less([10], es[1].key) && !Less([10], es[0].key);
    SortedFirstAbove(es, [10], 1);
  }

  lemma NothingBelow(es: seq<Entry<int>>, q: Key)
    requires es == DecadeEntries() && |q| == 1 && q[0] <= 10
    ensures LastBelow(es, q) == None
  {
    forall i | 0 <= i < |es| ensures !Less(es[i].key, q) {
      assert |es[i].key| == 1 && es[i].key[0] >= 10;
      assert q[1..] == [];
    }
    LastBelowNone(es, q);
  }

  /** 10 is stored: its own value is found, nothing lies below it. */
  lemma SearchStored(t: Node<int>)
    requires Shaped(t) && Ordered(t) && UnitSteps(t) && |t.branches| > 0
    requires Entries(t) == DecadeEntries()
    ensures Search(t, [10]) == Answer(None, Some(10), Some(20))
  {
    SearchIsQuery(t, [10]);
    NothingBelow(Entries(t), [10]);
    StoredAbove(Entries(t));
    StoredSelf(Entries(t));
  }

  lemma BelowAllAbove(es: seq<Entry<int>>)
    requires es == DecadeEntries()
    ensures FirstAbove(es, [5]) == Some(10)
  {
    DecadesSorted();
    assert Less([5], es[0].key);
    SortedFirstAbove(es, [5], 0);
  }

  lemma BelowAllAbsent(es: seq<Entry<int>>)
    requires es == DecadeEntries()
    ensures Lookup(es, [5]) == None
  {
    LookupAbsent(es, [5]);
  }

  /** 5 is below every key: no lower neighbour, 10 above. */
  lemma SearchBelowAll(t: Node<int>)
    requires Shaped(t) && Ordered(t) && UnitSteps(t) && |t.branches| > 0
    requires Entries(t) == DecadeEntries()
    ensures Search(t, [5]) == Answer(None, None, Some(10))
  {
    SearchIsQuery(t, [5]);
    NothingBelow(Entries(t), [5]);
    BelowAllAbove(Entries(t));
    BelowAllAbsent(Entries(t));
  }

  /** The three searches on the trie `New` builds from the decades. */
  lemma DecadeSearches() returns (t: Node<int>)
    ensures New(Decades(), Slice(DecadeValues())) == Ok(t)
    ensures Shaped(t) && |t.branches| > 0
    ensures Search(t, [25]) == Answer(Some(20), None, Some(30))
    ensures Search(t, [10]) == Answer(None, Some(10), Some(20))
    ensures Search(t, [5]) == Answer(None, None, Some(10))
  {
    t := DecadeTrie();
    SearchBetween(t);
    SearchStored(t);
    SearchBelowAll(t);
  }

  /** A one-byte key under a fresh branch byte is accepted and appends
      its byte to the branch list. */
  lemma AddByte(n: Node<int>, x: Byte, v: int) returns (m: Node<int>)
    requires x as int !in n.children
    ensures AddKV(n, [x], v, false, false) == Ok(m)
    ensures m.branches == n.branches + [x as int] && m.children.Keys == n.children.Keys + {x as int}
  {
    assert [x][1..] == [];
    m := AddKV(n, [x], v, false, false).value;
  }

  /** Keys out of order are not all rejected: `addKV` only detects a key
      that is a proper prefix of a stored one. Inserting 2 and then 1 is
      accepted and leaves the root's branch list descending. */
  lemma UnsortedAcceptedOf(ks: seq<Key>, vs: seq<int>) returns (t: Node<int>)
    requires ks == [[2], [1]] && vs == [20, 10]
    ensures New(ks, Slice(vs)) == Ok(t)
    ensures t.branches == [2, 1] && !Ascending(t.branches)
  {
    var r0 := NewInner<int>();
    var x0, x1 := ks[0][0], ks[1][0];
    assert ks[0] == [x0] && ks[1] == [x1];
    var m1 := AddByte(r0, x0, vs[0]);
    t := AddByte(m1, x1, vs[1]);
    AddAllTwo(r0, m1, t, ks, vs);
    assert t.branches == [x0 as int, x1 as int];
    assert t.branches[0] > t.branches[1];
  }

  /** `New`'s loop over two keys, given the two insertions. */
  lemma AddAllTwo(r0: Node<int>, m1: Node<int>, t: Node<int>, ks: seq<Key>, vs: seq<int>)
    requires |ks| == 2 && |vs| == 2
    requires AddKV(r0, ks[0], vs[0], false, false) == Ok(m1)
    requires AddKV(m1, ks[1], vs[1], false, false) == Ok(t)
    ensures AddAll(r0, ks, vs) == Ok(t)
  {
    assert ks[1..][0] == ks[1] && vs[1..][0] == vs[1];
    assert AddAll(t, ks[1..][1..], vs[1..][1..]) == Ok(t);
  }

  lemma UnsortedAccepted() returns (t: Node<int>)
    ensures New([[2], [1]], Slice([20, 10])) == Ok(t)
    ensures t.branches == [2, 1] && !Ascending(t.branches)
  {
    t := UnsortedAcceptedOf([[2], [1]], [20, 10]);
  }
}
