/** Building a trie: `addKV` (one key, one byte per level) and `New`. */
module Insert {
  import opened Keys
  import opened Branches
  import opened TrieNode
  import opened EntryLists

  /** The values argument. The source takes an untyped value and checks by
      reflection that it is a slice; a typed slice or "not a slice". */
  datatype Values<V> = Slice(elems: seq<V>) | NotSlice

  /** The run of fresh one-byte nodes created for the unmatched suffix of a
      key, ending at the node that receives the leaf. */
  function Chain<V>(suffix: Key, leaf: Node<V>): (r: Node<V>)
    requires IsLeaf(leaf)
    ensures Shaped(r) && Ordered(r) && UnitSteps(r)
    ensures r.step == 1 && |r.branches| == 1 && r.value == None
    ensures Entries(r) == [Entry(suffix, leaf.value.value, leaf.isStartLeaf, leaf.isEndLeaf)]
    decreases |suffix|
  {
    if |suffix| == 0 then
      var r := Node(map[LeafBranch := leaf], [LeafBranch], 1, None, false, false);
      BranchEntriesSingle(r, LeafBranch);
      r
    else
      var b := suffix[0];
      var r := Node(map[b as int := Chain(suffix[1..], leaf)], [b as int], 1, None, false, false);
      BranchEntriesSingle(r, b);
      assert [b] + suffix[1..] == suffix;
      r
  }

  /** `addKV`: walk the existing bytes of `key`; if the whole key is matched,
      an existing leaf is a duplicate and any other branch means a longer
      key was inserted before it; otherwise hang the new suffix and leaf. */
  function AddKV<V>(n: Node<V>, key: Key, value: V, isStartLeaf: bool, isEndLeaf: bool): (r: Result<Node<V>>)
    ensures r.Err? ==> r.error == DuplicateKeys || r.error == KeyOutOfOrder
    decreases |key|
  {
    var leaf := NewLeaf(value, isStartLeaf, isEndLeaf);
    if |key| == 0 then
      if LeafBranch in n.children then Err(DuplicateKeys)
      else if |n.branches| != 0 then Err(KeyOutOfOrder)
      else Ok(n.(children := n.children[LeafBranch := leaf], branches := n.branches + [LeafBranch]))
    else if key[0] in n.children then
      match AddKV(n.children[key[0]], key[1..], value, isStartLeaf, isEndLeaf)
      case Err(e) => Err(e)
      case Ok(c) => Ok(n.(children := n.children[key[0] := c]))
    else
      Ok(n.(children := n.children[key[0] := Chain(key[1..], leaf)], branches := n.branches + [key[0]]))
  }

  /** `addKV` fails exactly when the key is already stored (duplicate) or,
      not being stored, is a proper prefix of a stored key (out of order);
      the duplicate check comes first. */
  lemma {:induction false} AddKVOutcome<V>(n: Node<V>, key: Key, value: V, isStartLeaf: bool, isEndLeaf: bool)
    requires Shaped(n) && (|n.branches| > 0 || n.value.None?)
    ensures AddKV(n, key, value, isStartLeaf, isEndLeaf) == Err(DuplicateKeys)
      <==> HasKey(Entries(n), key)
    ensures AddKV(n, key, value, isStartLeaf, isEndLeaf) == Err(KeyOutOfOrder)
      <==> !HasKey(Entries(n), key) && ExtendsKey(Entries(n), key)
    decreases |key|
  {
    var es := Entries(n);
    var bs := n.branches;
    if |key| == 0 {
      if LeafBranch in n.children {
        var p :| 0 <= p < |bs| && bs[p] == LeafBranch;
        SplitAt(n, p);
        var leaf := n.children[LeafBranch];
        assert Block(n, LeafBranch) == [Entry([], leaf.value.value, leaf.isStartLeaf, leaf.isEndLeaf)];
        assert Block(n, bs[p])[0].key == key;
        HasKeyAppend(BranchEntries(n, bs[..p]) + Block(n, bs[p]), BranchEntries(n, bs[p + 1..]), key);
        HasKeyAppend(BranchEntries(n, bs[..p]), Block(n, bs[p]), key);
      } else if |bs| != 0 {
        EntriesKeys(n);
        EntriesNonEmpty(n);
        assert ProperPrefix(key, es[0].key);
      }
    } else {
      var x := key[0];
      assert [x] + key[1..] == key;
      if x in n.children {
        var p :| 0 <= p < |bs| && bs[p] == x;
        SplitAt(n, p);
        var c := n.children[x];
        AddKVOutcome(c, key[1..], value, isStartLeaf, isEndLeaf);
        var l := BranchEntries(n, bs[..p]);
        var rt := BranchEntries(n, bs[p + 1..]);
        ForeignBranch(l, bs[..p], key);
        ForeignBranch(rt, bs[p + 1..], key);
        HasKeyAppend(l + Block(n, x), rt, key);
        HasKeyAppend(l, Block(n, x), key);
        ExtendsKeyAppend(l + Block(n, x), rt, key);
        ExtendsKeyAppend(l, Block(n, x), key);
        PrefixedHasKey(x, Entries(c), key[1..]);
        PrefixedExtendsKey(x, Entries(c), key[1..]);
      } else if |bs| > 0 {
        EntriesKeys(n);
        ForeignBranch(es, bs, key);
      }
    }
  }

  /** Every key stored under a byte branch above `key[0]` is above `key`. */
  lemma HigherBranchAbove<V>(n: Node<V>, b: int, key: Key)
    requires Shaped(n) && b in n.children && |key| > 0 && b > key[0]
    ensures |Block(n, b)| > 0
    ensures forall i :: 0 <= i < |Block(n, b)| ==> Less(key, Block(n, b)[i].key)
  {
    BlockNonEmpty(n, b);
    BlockKeys(n, b);
  }

  /** The trie invariants `addKV` keeps on its way down. */
  ghost predicate Growable<V>(n: Node<V>)
  {
    Shaped(n) && Ordered(n) && UnitSteps(n) && (|n.branches| > 0 || n.value.None?)
  }

  /** Every stored key is below `key`. */
  ghost predicate AllBelow<V>(es: seq<Entry<V>>, key: Key)
  {
    forall i :: 0 <= i < |es| ==> Less(es[i].key, key)
  }

  /** What a successful in-order insertion delivers. */
  ghost predicate Appended<V>(n: Node<V>, m: Node<V>, e: Entry<V>)
  {
    && Shaped(m) && Ordered(m) && UnitSteps(m) && |m.branches| > 0
    && m.step == n.step && m.value == n.value
    && Entries(m) == Entries(n) + [e]
  }

  /** Inserting a key above every stored key succeeds, keeps the trie shaped,
      ordered and unsquashed, and appends the key to the entry list. */
  lemma {:induction false} AddKVAppends<V>(n: Node<V>, key: Key, value: V, isStartLeaf: bool, isEndLeaf: bool)
    requires Growable(n) && AllBelow(Entries(n), key)
    ensures AddKV(n, key, value, isStartLeaf, isEndLeaf).Ok?
    ensures Appended(n, AddKV(n, key, value, isStartLeaf, isEndLeaf).value, Entry(key, value, isStartLeaf, isEndLeaf))
    decreases |key|, 1
  {
    if |key| == 0 {
      AddKVAppendsEmptyKey(n, value, isStartLeaf, isEndLeaf);
    } else if key[0] in n.children {
      AddKVAppendsExisting(n, key, value, isStartLeaf, isEndLeaf);
    } else {
      AddKVAppendsFresh(n, key, value, isStartLeaf, isEndLeaf);
    }
  }

  /** No key is below the empty key. */
  lemma NothingBelowEmpty<V>(es: seq<Entry<V>>)
    ensures AllBelow(es, []) <==> |es| == 0
  {
    if |es| > 0 { assert !Less(es[0].key, []); }
  }

  lemma AddKVAppendsEmptyKey<V>(n: Node<V>, value: V, isStartLeaf: bool, isEndLeaf: bool)
    requires Growable(n) && AllBelow(Entries(n), [])
    ensures AddKV(n, [], value, isStartLeaf, isEndLeaf).Ok?
    ensures Appended(n, AddKV(n, [], value, isStartLeaf, isEndLeaf).value, Entry([], value, isStartLeaf, isEndLeaf))
  {
    var leaf := NewLeaf(value, isStartLeaf, isEndLeaf);
    NothingBelowEmpty(Entries(n));
    if |n.branches| > 0 { EntriesNonEmpty(n); }
    assert n.children == map[];
    var m := AddKV(n, [], value, isStartLeaf, isEndLeaf).value;
    assert m == n.(children := map[LeafBranch := leaf], branches := [LeafBranch]);
    BranchEntriesSingle(m, LeafBranch);
    assert Entries(leaf) == [Entry([], value, isStartLeaf, isEndLeaf)];
  }

  lemma {:induction false} AddKVAppendsExisting<V>(n: Node<V>, key: Key, value: V, isStartLeaf: bool, isEndLeaf: bool)
    requires Growable(n) && AllBelow(Entries(n), key) && |key| > 0 && key[0] in n.children
    ensures AddKV(n, key, value, isStartLeaf, isEndLeaf).Ok?
    ensures Appended(n, AddKV(n, key, value, isStartLeaf, isEndLeaf).value, Entry(key, value, isStartLeaf, isEndLeaf))
    decreases |key|, 0
  {
    var x := key[0];
    var c := n.children[x];
    ChildAllBelow(n, key);
    AddKVAppends(c, key[1..], value, isStartLeaf, isEndLeaf);
    var c' := AddKV(c, key[1..], value, isStartLeaf, isEndLeaf).value;
    ReplaceLast(n, c', Entry(key[1..], value, isStartLeaf, isEndLeaf));
    assert [x] + key[1..] == key;
  }

  /** Below the branch of its first byte, the rest of a key above every
      stored key is above every key stored there; that branch is the last. */
  lemma ChildAllBelow<V>(n: Node<V>, key: Key)
    requires Growable(n) && AllBelow(Entries(n), key) && |key| > 0 && key[0] in n.children
    ensures |n.branches| > 0 && n.branches[|n.branches| - 1] == key[0]
    ensures Growable(n.children[key[0]]) && AllBelow(Entries(n.children[key[0]]), key[1..])
  {
    var bs := n.branches;
    var x := key[0];
    var p :| 0 <= p < |bs| && bs[p] == x;
    var c := n.children[x];
    LastBranch(n, key, p);
    AllBelowSuffix(BranchEntries(n, bs[..p]), Block(n, x), key);
    assert Block(n, x) == Prefixed(x as int, Entries(c));
    assert [x] + key[1..] == key;
    PrefixedAllBelow(x, Entries(c), key[1..]);
  }

  lemma AllBelowSuffix<V>(l: seq<Entry<V>>, b: seq<Entry<V>>, key: Key)
    requires AllBelow(l + b, key)
    ensures AllBelow(b, key)
  {
    forall i | 0 <= i < |b| ensures Less(b[i].key, key) {
      assert b[i] == (l + b)[|l| + i];
    }
  }

  /** Below a common first byte, order is the order of the rests. */
  lemma PrefixedAllBelow<V>(x: Byte, es: seq<Entry<V>>, key: Key)
    requires AllBelow(Prefixed(x as int, es), [x] + key)
    ensures AllBelow(es, key)
  {
    var p := Prefixed(x as int, es);
    forall i | 0 <= i < |es| ensures Less(es[i].key, key) {
      assert p[i].key == [x] + es[i].key;
      ConsLess(x, es[i].key, key);
    }
  }

  /** Appending to the last child of a node appends, prefixed by its byte,
      to the node's entries. */
  lemma ReplaceLast<V>(n: Node<V>, c': Node<V>, e: Entry<V>)
    requires Growable(n) && |n.branches| > 0
    requires var x := n.branches[|n.branches| - 1];
      x != LeafBranch && Appended(n.children[x], c', e)
    ensures var x := n.branches[|n.branches| - 1];
      Appended(n, n.(children := n.children[x := c']), Entry([x as Byte] + e.key, e.value, e.isStartLeaf, e.isEndLeaf))
  {
    var bs := n.branches;
    var x := bs[|bs| - 1];
    ReplaceChildShape(n, x, c');
    ReplaceLastEntries(n, c', e);
  }

  /** Replacing a byte child by one with the same step and at least one
      branch keeps the invariants. */
  lemma ReplaceChildShape<V>(n: Node<V>, x: int, c': Node<V>)
    requires Growable(n) && x in n.children && x != LeafBranch
    requires Shaped(c') && Ordered(c') && UnitSteps(c') && c'.step == 1 && |c'.branches| > 0
    ensures var m := n.(children := n.children[x := c']);
      Shaped(m) && Ordered(m) && UnitSteps(m)
  {
    var m := n.(children := n.children[x := c']);
    forall b | b in m.children ensures Ordered(m.children[b]) && (b != LeafBranch ==> m.children[b].step == 1 && UnitSteps(m.children[b])) {
      if b != x { assert m.children[b] == n.children[b]; }
    }
    forall b | b in m.children && b != LeafBranch ensures |m.children[b].branches| > 0 && Shaped(m.children[b]) {
      if b != x { assert m.children[b] == n.children[b]; }
    }
  }

  lemma ReplaceLastEntries<V>(n: Node<V>, c': Node<V>, e: Entry<V>)
    requires Shaped(n) && |n.branches| > 0
    requires var x := n.branches[|n.branches| - 1];
      x in n.children && Entries(c') == Entries(n.children[x]) + [e]
    ensures var x := n.branches[|n.branches| - 1];
      Entries(n.(children := n.children[x := c'])) == Entries(n) + Prefixed(x, [e])
  {
    var bs := n.branches;
    var p := |bs| - 1;
    var x := bs[p];
    var c := n.children[x];
    var m := n.(children := n.children[x := c']);
    assert bs == bs[..p] + [x];
    assert x !in bs[..p];
    BranchEntriesAppend(n, bs[..p], [x]);
    BranchEntriesAppend(m, bs[..p], [x]);
    BranchEntriesSingle(n, x);
    BranchEntriesSingle(m, x);
    BranchEntriesFrame(n, m, bs[..p]);
    PrefixedAppend(x, Entries(c), [e]);
  }

  /** A key above every stored key has a first byte at least every branch. */
  lemma BranchesAtMost<V>(n: Node<V>, key: Key)
    requires Shaped(n) && AllBelow(Entries(n), key) && |key| > 0
    ensures forall j :: 0 <= j < |n.branches| ==> n.branches[j] <= key[0]
  {
    var bs := n.branches;
    forall j | 0 <= j < |bs| ensures bs[j] <= key[0] {
      if bs[j] != LeafBranch {
        SplitAt(n, j);
        BlockNonEmpty(n, bs[j]);
        BlockKeys(n, bs[j]);
        var k := |BranchEntries(n, bs[..j])|;
        assert Entries(n)[k] == Block(n, bs[j])[0];
      }
    }
  }

  /** A key above every stored key can only continue along the last branch. */
  lemma LastBranch<V>(n: Node<V>, key: Key, p: nat)
    requires Shaped(n) && Ordered(n) && AllBelow(Entries(n), key)
    requires |key| > 0 && p < |n.branches| && n.branches[p] == key[0]
    ensures p == |n.branches| - 1
    ensures Entries(n) == BranchEntries(n, n.branches[..p]) + Block(n, key[0])
  {
    var bs := n.branches;
    SplitAt(n, p);
    BranchesAtMost(n, key);
    assert bs[|bs| - 1] <= bs[p];
    assert bs[p + 1..] == [];
  }

  /** A key above every stored key whose first byte is new sorts after every branch. */
  lemma BranchesBelow<V>(n: Node<V>, key: Key)
    requires Shaped(n) && AllBelow(Entries(n), key) && |key| > 0 && key[0] !in n.children
    ensures forall j :: 0 <= j < |n.branches| ==> n.branches[j] < key[0]
  {
    BranchesAtMost(n, key);
    assert forall j :: 0 <= j < |n.branches| ==> n.branches[j] in n.children;
  }

  lemma AddKVAppendsFresh<V>(n: Node<V>, key: Key, value: V, isStartLeaf: bool, isEndLeaf: bool)
    requires Growable(n) && AllBelow(Entries(n), key) && |key| > 0 && key[0] !in n.children
    ensures AddKV(n, key, value, isStartLeaf, isEndLeaf).Ok?
    ensures Appended(n, AddKV(n, key, value, isStartLeaf, isEndLeaf).value, Entry(key, value, isStartLeaf, isEndLeaf))
  {
    var x := key[0];
    assert [x] + key[1..] == key;
    var leaf := NewLeaf(value, isStartLeaf, isEndLeaf);
    BranchesBelow(n, key);
    var ch := Chain(key[1..], leaf);
    AppendChildShape(n, x, ch);
    AppendChildEntries(n, x, ch);
  }

  /** A new byte child above every branch keeps the invariants. */
  lemma AppendChildShape<V>(n: Node<V>, x: Byte, ch: Node<V>)
    requires Growable(n) && x !in n.children
    requires forall j :: 0 <= j < |n.branches| ==> n.branches[j] < x
    requires Shaped(ch) && Ordered(ch) && UnitSteps(ch) && ch.step == 1 && |ch.branches| > 0
    ensures var m := n.(children := n.children[x as int := ch], branches := n.branches + [x as int]);
      Shaped(m) && Ordered(m) && UnitSteps(m)
  {
    var bs := n.branches;
    var m := n.(children := n.children[x as int := ch], branches := bs + [x as int]);
    var bs' := bs + [x as int];
    assert Elems(bs') == Elems(bs) + {x as int};
    assert Ascending(bs') by {
      forall i, j | 0 <= i < j < |bs'| ensures bs'[i] < bs'[j] {
        if j < |bs| { assert bs'[i] == bs[i] && bs'[j] == bs[j]; }
      }
    }
    forall b | b in m.children ensures Ordered(m.children[b]) && (b != LeafBranch ==> m.children[b].step == 1 && UnitSteps(m.children[b])) {
      if b != x as int { assert m.children[b] == n.children[b]; }
    }
    forall b | b in m.children && b != LeafBranch ensures |m.children[b].branches| > 0 && Shaped(m.children[b]) {
      if b != x as int { assert m.children[b] == n.children[b]; }
    }
  }

  /** A new byte child above every branch adds its entries behind the others. */
  lemma AppendChildEntries<V>(n: Node<V>, x: Byte, ch: Node<V>)
    requires x !in n.children && x !in n.branches && (|n.branches| > 0 || n.value.None?)
    ensures var m := n.(children := n.children[x as int := ch], branches := n.branches + [x as int]);
      Entries(m) == Entries(n) + Prefixed(x, Entries(ch))
  {
    var bs := n.branches;
    var m := n.(children := n.children[x as int := ch], branches := bs + [x as int]);
    BranchEntriesAppend(m, bs, [x]);
    BranchEntriesSingle(m, x);
    BranchEntriesFrame(n, m, bs);
  }

  /** The loop of `New`: insert each key in turn, stopping at the first error. */
  function AddAll<V>(n: Node<V>, keys: seq<Key>, values: seq<V>): Result<Node<V>>
    requires |keys| == |values|
    decreases |keys|
  {
    if |keys| == 0 then Ok(n)
    else match AddKV(n, keys[0], values[0], false, false)
      case Err(e) => Err(e)
      case Ok(m) => AddAll(m, keys[1..], values[1..])
  }

  /** `New`: the values must be a slice, of the same length as the keys;
      then every key is inserted into a fresh root. */
  function New<V>(keys: seq<Key>, values: Values<V>): (r: Result<Node<V>>)
    ensures values.NotSlice? ==> r == Err(ValuesNotSlice)
    ensures values.Slice? && |keys| != |values.elems| ==> r == Err(KVLenNotMatch)
  {
    if values.NotSlice? then Err(ValuesNotSlice)
    else if |keys| != |values.elems| then Err(KVLenNotMatch)
    else AddAll(NewInner(), keys, values.elems)
  }

  /** Every stored key is below every key still to be inserted. */
  ghost predicate BelowAll<V>(es: seq<Entry<V>>, keys: seq<Key>)
  {
    forall j :: 0 <= j < |keys| ==> AllBelow(es, keys[j])
  }

  /** After inserting the first of the ascending keys, the entries are below
      the remaining keys. */
  lemma BelowRest<V>(es: seq<Entry<V>>, keys: seq<Key>, v: V)
    requires |keys| > 0 && StrictlyAscending(keys) && BelowAll(es, keys)
    ensures StrictlyAscending(keys[1..])
    ensures BelowAll(es + [Entry(keys[0], v, false, false)], keys[1..])
  {
    var es' := es + [Entry(keys[0], v, false, false)];
    forall j | 0 <= j < |keys[1..]| ensures AllBelow(es', keys[1..][j]) {
      assert keys[1..][j] == keys[j + 1];
      assert AllBelow(es, keys[j + 1]);
      forall i | 0 <= i < |es'| ensures Less(es'[i].key, keys[j + 1]) {
        if i < |es| { assert es'[i] == es[i]; }
      }
    }
  }

  /** One round of the loop of `New` on ascending keys above the trie. */
  lemma {:induction false} AddFirst<V>(n: Node<V>, keys: seq<Key>, values: seq<V>) returns (m1: Node<V>)
    requires Growable(n) && |keys| > 0
    requires |keys| == |values| && StrictlyAscending(keys) && BelowAll(Entries(n), keys)
    ensures Growable(m1) && |m1.branches| > 0 && m1.value == n.value
    ensures StrictlyAscending(keys[1..]) && BelowAll(Entries(m1), keys[1..])
    ensures Entries(m1) == Entries(n) + [Entry(keys[0], values[0], false, false)]
    ensures AddAll(n, keys, values) == AddAll(m1, keys[1..], values[1..])
  {
    assert AllBelow(Entries(n), keys[0]);
    AddKVAppends(n, keys[0], values[0], false, false);
    m1 := AddKV(n, keys[0], values[0], false, false).value;
    BelowRest(Entries(n), keys, values[0]);
  }

  lemma {:induction false} AddAllAppends<V>(n: Node<V>, keys: seq<Key>, values: seq<V>)
    requires Growable(n)
    requires |keys| == |values| && StrictlyAscending(keys) && BelowAll(Entries(n), keys)
    ensures AddAll(n, keys, values).Ok?
    ensures Extended(n, AddAll(n, keys, values).value, Zip(keys, values))
    ensures |keys| > 0 ==> |AddAll(n, keys, values).value.branches| > 0
    decreases |keys|, 1
  {
    if |keys| > 0 {
      AddAllAppendsCons(n, keys, values);
    } else {
      assert Zip(keys, values) == [];
      assert Entries(n) + [] == Entries(n);
    }
  }

  lemma {:induction false} AddAllAppendsCons<V>(n: Node<V>, keys: seq<Key>, values: seq<V>)
    requires Growable(n) && |keys| > 0
    requires |keys| == |values| && StrictlyAscending(keys) && BelowAll(Entries(n), keys)
    ensures AddAll(n, keys, values).Ok?
    ensures Extended(n, AddAll(n, keys, values).value, Zip(keys, values))
    ensures |AddAll(n, keys, values).value.branches| > 0
    decreases |keys|, 0
  {
    var m1 := AddFirst(n, keys, values);
    var e0 := Entry(keys[0], values[0], false, false);
    AddAllAppends(m1, keys[1..], values[1..]);
    ZipCons(keys, values);
    ExtendedTrans(n, m1, AddAll(m1, keys[1..], values[1..]).value, [e0], Zip(keys[1..], values[1..]));
  }

  lemma ExtendedTrans<V>(n: Node<V>, m1: Node<V>, m: Node<V>, a: seq<Entry<V>>, b: seq<Entry<V>>)
    requires Extended(n, m1, a) && Extended(m1, m, b)
    ensures Extended(n, m, a + b)
  {
    assert (Entries(n) + a) + b == Entries(n) + (a + b);
  }

  lemma ZipCons<V>(keys: seq<Key>, values: seq<V>)
    requires |keys| == |values| && |keys| > 0
    ensures Zip(keys, values) == [Entry(keys[0], values[0], false, false)] + Zip(keys[1..], values[1..])
  {
  }

  /** `m` is `n` with the entries `es` added behind its own, the trie
      invariants intact. */
  ghost predicate Extended<V>(n: Node<V>, m: Node<V>, es: seq<Entry<V>>)
  {
    Shaped(m) && Ordered(m) && UnitSteps(m) && m.value == n.value && Entries(m) == Entries(n) + es
  }

  /** From strictly ascending keys `New` builds a shaped, ordered, unsquashed
      trie whose leaves are exactly the keys with their paired values, in
      order. A count mismatch is reported before any key is looked at. */
  lemma NewBuilds<V>(keys: seq<Key>, values: seq<V>)
    requires |keys| == |values| && StrictlyAscending(keys)
    ensures New(keys, Slice(values)).Ok?
    ensures var t := New(keys, Slice(values)).value;
      && Shaped(t) && Ordered(t) && UnitSteps(t)
      && (|keys| > 0 ==> |t.branches| > 0)
      && Entries(t) == Zip(keys, values)
  {
    var root := NewInner<V>();
    assert Entries(root) == [];
    AddAllAppends(root, keys, values);
  }

  lemma {:induction false} AddAllSplit<V>(n: Node<V>, keys: seq<Key>, values: seq<V>, m: nat)
    requires |keys| == |values| && m <= |keys|
    ensures AddAll(n, keys, values) ==
      match AddAll(n, keys[..m], values[..m])
      case Err(e) => Err(e)
      case Ok(t) => AddAll(t, keys[m..], values[m..])
    decreases m
  {
    if m > 0 {
      assert keys[..m][1..] == keys[1..][..m - 1] && values[..m][1..] == values[1..][..m - 1];
      assert keys[1..][m - 1..] == keys[m..] && values[1..][m - 1..] == values[m..];
      match AddKV(n, keys[0], values[0], false, false)
      case Err(e) =>
      case Ok(n1) => AddAllSplit(n1, keys[1..], values[1..], m - 1);
    } else {
      assert keys[0..] == keys && values[0..] == values;
    }
  }

  /** The trie `New` has built from the first m keys, when they are
      strictly ascending, and the insertion of key m that decides its fate. */
  lemma NewUpTo<V>(keys: seq<Key>, values: seq<V>, m: nat) returns (t: Node<V>)
    requires |keys| == |values| && m < |keys| && StrictlyAscending(keys[..m])
    ensures Shaped(t) && (|t.branches| > 0 || t.value.None?)
    ensures Entries(t) == Zip(keys[..m], values[..m])
    ensures AddKV(t, keys[m], values[m], false, false).Err? ==>
      New(keys, Slice(values)) == AddKV(t, keys[m], values[m], false, false)
  {
    var root := NewInner<V>();
    AddAllSplit(root, keys, values, m);
    NewBuilds(keys[..m], values[..m]);
    t := AddAll(root, keys[..m], values[..m]).value;
    assert keys[m..][0] == keys[m] && values[m..][0] == values[m];
  }

  /** When the keys before position m are strictly ascending and key m
      repeats one of them, `New` fails as a duplicate. */
  lemma NewReportsDuplicate<V>(keys: seq<Key>, values: seq<V>, m: nat, j: nat)
    requires |keys| == |values| && m < |keys| && StrictlyAscending(keys[..m])
    requires j < m && keys[j] == keys[m]
    ensures New(keys, Slice(values)) == Err(DuplicateKeys)
  {
    var t := NewUpTo(keys, values, m);
    AddKVOutcome(t, keys[m], values[m], false, false);
    assert Entries(t)[j].key == keys[m];
  }

  /** When the keys before position m are strictly ascending and key m is
      new but a proper prefix of one of them, `New` fails as out of order. */
  lemma NewReportsPrefix<V>(keys: seq<Key>, values: seq<V>, m: nat, j: nat)
    requires |keys| == |values| && m < |keys| && StrictlyAscending(keys[..m])
    requires forall i :: 0 <= i < m ==> keys[i] != keys[m]
    requires j < m && ProperPrefix(keys[m], keys[j])
    ensures New(keys, Slice(values)) == Err(KeyOutOfOrder)
  {
    var t := NewUpTo(keys, values, m);
    var z := Entries(t);
    AddKVOutcome(t, keys[m], values[m], false, false);
    assert ProperPrefix(keys[m], z[j].key);
    forall i | 0 <= i < |z| ensures z[i].key != keys[m] {
      assert z[i].key == keys[i];
    }
  }
}
