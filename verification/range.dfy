/** The range trie: every range contributes a start leaf and an end leaf;
    a range whose end equals its start contributes one leaf flagged both. */
module RangeTrie {
  import opened Keys
  import opened Branches
  import opened TrieNode
  import opened EntryLists
  import opened Insert

  // ---- marking the start leaf as an end ----

  /** Sets the end flag on the leaf stored at `key`; a trie without that
      key is returned unchanged. */
  function MarkEnd<V>(n: Node<V>, key: Key): (r: Node<V>)
    ensures r.branches == n.branches && r.children.Keys == n.children.Keys
    ensures r.step == n.step && r.value == n.value
    decreases |key|
  {
    if |key| == 0 then
      if LeafBranch in n.children then
        n.(children := n.children[LeafBranch := n.children[LeafBranch].(isEndLeaf := true)])
      else n
    else if key[0] in n.children then
      n.(children := n.children[key[0] := MarkEnd(n.children[key[0]], key[1..])])
    else n
  }

  /** The entry list with the end flag set on the entries keyed `key`. */
  ghost function MarkEndKey<V>(es: seq<Entry<V>>, key: Key): (r: seq<Entry<V>>)
    ensures |r| == |es|
    ensures forall i :: 0 <= i < |es| ==>
      r[i] == if es[i].key == key then es[i].(isEndLeaf := true) else es[i]
  {
    seq(|es|, i requires 0 <= i < |es| => if es[i].key == key then es[i].(isEndLeaf := true) else es[i])
  }

  lemma MarkEndKeyAppend<V>(a: seq<Entry<V>>, b: seq<Entry<V>>, key: Key)
    ensures MarkEndKey(a + b, key) == MarkEndKey(a, key) + MarkEndKey(b, key)
  {
    assert forall i :: 0 <= i < |a| ==> (a + b)[i] == a[i];
    assert forall i :: |a| <= i < |a + b| ==> (a + b)[i] == b[i - |a|];
  }

  lemma MarkEndKeyAbsent<V>(es: seq<Entry<V>>, key: Key)
    requires forall i :: 0 <= i < |es| ==> es[i].key != key
    ensures MarkEndKey(es, key) == es
  {
  }

  lemma PrefixedMarkEnd<V>(x: Byte, es: seq<Entry<V>>, key: Key)
    ensures Prefixed(x as int, MarkEndKey(es, key)) == MarkEndKey(Prefixed(x as int, es), [x] + key)
  {
    forall i | 0 <= i < |es|
      ensures ([x] + es[i].key == [x] + key) == (es[i].key == key)
    {
      if [x] + es[i].key == [x] + key {
        assert es[i].key == ([x] + es[i].key)[1..];
      }
    }
  }

  /** Leaves and the keys of the entries do not change; only flags do, so
      every invariant of the trie survives the marking. */
  lemma {:induction false} MarkEndShaped<V>(n: Node<V>, key: Key)
    requires Shaped(n)
    ensures Shaped(MarkEnd(n, key))
    decreases |key|
  {
    var m := MarkEnd(n, key);
    if |key| > 0 && key[0] in n.children {
      var x := key[0];
      ByteChildShaped(n, x);
      MarkEndShaped(n.children[x], key[1..]);
      forall b | b in m.children && b != x ensures m.children[b] == n.children[b] { }
    } else if |key| == 0 && LeafBranch in n.children {
      forall b | b in m.children && b != LeafBranch ensures m.children[b] == n.children[b] { }
    }
  }

  lemma {:induction false} MarkEndOrdered<V>(n: Node<V>, key: Key)
    requires Ordered(n)
    ensures Ordered(MarkEnd(n, key))
    decreases |key|
  {
    var m := MarkEnd(n, key);
    if |key| > 0 && key[0] in n.children {
      var x := key[0];
      MarkEndOrdered(n.children[x], key[1..]);
      forall b | b in m.children && b != x ensures m.children[b] == n.children[b] { }
    } else if |key| == 0 && LeafBranch in n.children {
      forall b | b in m.children && b != LeafBranch ensures m.children[b] == n.children[b] { }
    }
  }

  lemma {:induction false} MarkEndUnitSteps<V>(n: Node<V>, key: Key)
    requires UnitSteps(n)
    ensures UnitSteps(MarkEnd(n, key))
    decreases |key|
  {
    var m := MarkEnd(n, key);
    if |key| > 0 && key[0] in n.children {
      var x := key[0];
      if x != LeafBranch { MarkEndUnitSteps(n.children[x], key[1..]); }
      forall b | b in m.children && b != x ensures m.children[b] == n.children[b] { }
    }
  }

  lemma {:induction false} MarkEndValueless<V>(n: Node<V>, key: Key)
    requires Valueless(n)
    ensures Valueless(MarkEnd(n, key))
    decreases |key|
  {
    var m := MarkEnd(n, key);
    if |key| > 0 && key[0] in n.children {
      var x := key[0];
      if x != LeafBranch { MarkEndValueless(n.children[x], key[1..]); }
      forall b | b in m.children && b != x ensures m.children[b] == n.children[b] { }
    }
  }

  /** The byte child `b` of a shaped node is shaped. */
  lemma ByteChildShaped<V>(n: Node<V>, b: int)
    requires Shaped(n) && b in n.children && b != LeafBranch
    ensures Shaped(n.children[b]) && |n.children[b].branches| > 0
  {
  }

  /** Marking the trie marks exactly the entries stored under `key`. */
  lemma {:induction false} MarkEndEntries<V>(n: Node<V>, key: Key)
    requires Shaped(n) && (|n.branches| > 0 || n.value.None?)
    ensures Entries(MarkEnd(n, key)) == MarkEndKey(Entries(n), key)
    decreases |key|
  {
    var m := MarkEnd(n, key);
    var bs := n.branches;
    var touched := if |key| == 0 then LeafBranch in n.children else key[0] in n.children;
    if !touched && |bs| == 0 {
      assert Entries(n) == [];
    } else if !touched {
      EntriesKeys(n);
      var es := Entries(n);
      forall i | 0 <= i < |es| ensures es[i].key != key {
        if |key| > 0 && |es[i].key| > 0 { assert es[i].key[0] in bs; }
      }
      MarkEndKeyAbsent(es, key);
    } else {
      if |key| > 0 {
        ByteChildShaped(n, key[0]);
        MarkEndEntries(n.children[key[0]], key[1..]);
      }
      assert |bs| > 0 by {
        var b := if |key| == 0 then LeafBranch else key[0] as int;
        assert b in Elems(bs);
      }
      forall b | b in Elems(bs) ensures Block(m, b) == MarkEndKey(Block(n, b), key) {
        MarkEndBlock(n, key, b);
      }
      BranchEntriesMarked(n, m, bs, key);
    }
  }

  lemma MarkEndBlock<V>(n: Node<V>, key: Key, b: int)
    requires Shaped(n) && b in n.children
    requires |key| > 0 && key[0] in n.children ==>
      Entries(MarkEnd(n.children[key[0]], key[1..])) == MarkEndKey(Entries(n.children[key[0]]), key[1..])
    ensures Block(MarkEnd(n, key), b) == MarkEndKey(Block(n, b), key)
  {
    var m := MarkEnd(n, key);
    BlockKeys(n, b);
    if |key| == 0 && b == LeafBranch {
      var leaf := n.children[LeafBranch];
      assert Block(n, b) == [Entry([], leaf.value.value, leaf.isStartLeaf, leaf.isEndLeaf)];
      assert Block(m, b) == [Entry([], leaf.value.value, leaf.isStartLeaf, true)];
    } else if |key| > 0 && b == key[0] as int {
      assert [key[0]] + key[1..] == key;
      PrefixedMarkEnd(key[0], Entries(n.children[b]), key[1..]);
    } else {
      assert m.children[b] == n.children[b];
      var es := Block(n, b);
      forall i | 0 <= i < |es| ensures es[i].key != key {
        if |key| > 0 && b != LeafBranch { assert es[i].key[0] != key[0]; }
      }
      MarkEndKeyAbsent(es, key);
    }
  }

  lemma {:induction false} BranchEntriesMarked<V>(n: Node<V>, m: Node<V>, bs: seq<int>, key: Key)
    requires forall b :: b in Elems(bs) ==> Block(m, b) == MarkEndKey(Block(n, b), key)
    ensures BranchEntries(m, bs) == MarkEndKey(BranchEntries(n, bs), key)
    decreases |bs|
  {
    if |bs| == 0 {
      MarkEndKeyAbsent(BranchEntries(n, bs), key);
    } else {
      assert bs[0] in Elems(bs);
      assert Elems(bs[1..]) <= Elems(bs);
      BranchEntriesMarked(n, m, bs[1..], key);
      MarkEndKeyAppend(Block(n, bs[0]), BranchEntries(n, bs[1..]), key);
    }
  }

  // ---- inner nodes carry no value ----

  /** No node below `n` other than a leaf carries a value; the constructors
      only give values to leaves. */
  ghost predicate Valueless<V>(n: Node<V>)
  {
    forall b :: b in n.children && b != LeafBranch ==>
      n.children[b].value.None? && Valueless(n.children[b])
  }

  lemma {:induction false} ChainValueless<V>(suffix: Key, leaf: Node<V>)
    requires IsLeaf(leaf)
    ensures Valueless(Chain(suffix, leaf))
    decreases |suffix|
  {
    if |suffix| > 0 {
      ChainValueless(suffix[1..], leaf);
    }
  }

  /** A successful insertion creates valueless inner nodes only. */
  lemma {:induction false} AddKVValueless<V>(n: Node<V>, key: Key, value: V, isStartLeaf: bool, isEndLeaf: bool)
    requires Valueless(n)
    ensures AddKV(n, key, value, isStartLeaf, isEndLeaf).Ok? ==>
      Valueless(AddKV(n, key, value, isStartLeaf, isEndLeaf).value)
    decreases |key|
  {
    var r := AddKV(n, key, value, isStartLeaf, isEndLeaf);
    if r.Ok? && |key| > 0 {
      var x := key[0];
      var c: Node<V>;
      if x in n.children {
        AddKVValueless(n.children[x], key[1..], value, isStartLeaf, isEndLeaf);
        c := AddKV(n.children[x], key[1..], value, isStartLeaf, isEndLeaf).value;
      } else {
        var leaf := NewLeaf(value, isStartLeaf, isEndLeaf);
        ChainValueless(key[1..], leaf);
        c := Chain(key[1..], leaf);
      }
      var m := r.value;
      assert m.children == n.children[x as int := c];
      assert c.value.None? && Valueless(c);
      forall b | b in m.children && b != x ensures m.children[b] == n.children[b] { }
    }
  }

  // ---- NewRangeTrie ----

  /** One round of the loop of `NewRangeTrie`: insert the start, flagged
      as a start, then the end, flagged as an end. A duplicate end means the
      end is already stored: the start's leaf is flagged as an end instead.
      Any other error ends the loop. */
  function AddRange<V>(n: Node<V>, s: Key, e: Key, v: V): Result<Node<V>>
  {
    match AddKV(n, s, v, true, false)
    case Err(err) => Err(err)
    case Ok(m) =>
      match AddKV(m, e, v, false, true)
      case Ok(m') => Ok(m')
      case Err(err) => if err == DuplicateKeys then Ok(MarkEnd(m, s)) else Err(err)
  }

  /** The loop of `NewRangeTrie`: the ranges in turn, stopping at the first
      error. */
  function AddRanges<V>(n: Node<V>, starts: seq<Key>, ends: seq<Key>, values: seq<V>): Result<Node<V>>
    requires |starts| == |ends| == |values|
    decreases |starts|
  {
    if |starts| == 0 then Ok(n)
    else match AddRange(n, starts[0], ends[0], values[0])
      case Err(e) => Err(e)
      case Ok(m) => AddRanges(m, starts[1..], ends[1..], values[1..])
  }

  /** `NewRangeTrie`: starts and ends must pair up, the values must be a
      slice with one value per range; then the ranges are inserted in turn
      into a fresh root. */
  function NewRangeTrie<V>(starts: seq<Key>, ends: seq<Key>, values: Values<V>): (r: Result<Node<V>>)
    ensures |starts| != |ends| ==> r == Err(RangeNotMatch)
    ensures |starts| == |ends| && values.NotSlice? ==> r == Err(ValuesNotSlice)
    ensures |starts| == |ends| && values.Slice? && |starts| != |values.elems| ==> r == Err(KVLenNotMatch)
  {
    if |starts| != |ends| then Err(RangeNotMatch)
    else if values.NotSlice? then Err(ValuesNotSlice)
    else if |starts| != |values.elems| then Err(KVLenNotMatch)
    else AddRanges(NewInner(), starts, ends, values.elems)
  }

  // ---- what a range trie stores ----

  /** The leaves one range contributes. */
  ghost function RangePair<V>(s: Key, e: Key, v: V): seq<Entry<V>>
  {
    if s == e then [Entry(s, v, true, true)]
    else [Entry(s, v, true, false), Entry(e, v, false, true)]
  }

  /** The leaves the ranges contribute, range by range. */
  ghost function RangeEntries<V>(starts: seq<Key>, ends: seq<Key>, values: seq<V>): seq<Entry<V>>
    requires |starts| == |ends| == |values|
    decreases |starts|
  {
    if |starts| == 0 then []
    else RangePair(starts[0], ends[0], values[0]) + RangeEntries(starts[1..], ends[1..], values[1..])
  }

  /** Ranges as the constructor expects them: each start at most its end,
      each end below every later start. */
  ghost predicate SortedRanges(starts: seq<Key>, ends: seq<Key>)
    requires |starts| == |ends|
  {
    && (forall i :: 0 <= i < |starts| ==> starts[i] == ends[i] || Less(starts[i], ends[i]))
    && (forall i, j :: 0 <= i < j < |starts| ==> Less(ends[i], starts[j]))
  }

  /** The trie invariants the range loop keeps. */
  ghost predicate RangeReady<V>(n: Node<V>)
  {
    Growable(n) && Valueless(n)
  }

  /** One range on top of a trie whose keys are all below its start. */
  lemma AddOneRange<V>(n: Node<V>, s: Key, e: Key, v: V) returns (m': Node<V>)
    requires RangeReady(n) && AllBelow(Entries(n), s) && (s == e || Less(s, e))
    ensures RangeReady(m') && |m'.branches| > 0
    ensures Extended(n, m', RangePair(s, e, v))
    ensures AddKV(n, s, v, true, false).Ok?
    ensures AddRange(n, s, e, v) == Ok(m')
    ensures AddKV(AddKV(n, s, v, true, false).value, e, v, false, true).Err? ==>
      AddKV(AddKV(n, s, v, true, false).value, e, v, false, true).error == DuplicateKeys
  {
    AddKVAppends(n, s, v, true, false);
    var m := AddKV(n, s, v, true, false).value;
    AddKVValueless(n, s, v, true, false);
    if s == e {
      m' := AddSameEnd(n, m, s, v);
    } else {
      m' := AddDistinctEnd(n, m, s, e, v);
    }
  }

  /** A range whose end is its start: the end insertion finds the start's
      leaf, which is then flagged as an end too. */
  lemma AddSameEnd<V>(n: Node<V>, m: Node<V>, s: Key, v: V) returns (m': Node<V>)
    requires RangeReady(m) && AllBelow(Entries(n), s)
    requires Appended(n, m, Entry(s, v, true, false))
    ensures AddKV(m, s, v, false, true) == Err(DuplicateKeys)
    ensures m' == MarkEnd(m, s)
    ensures RangeReady(m') && |m'.branches| > 0
    ensures Extended(n, m', [Entry(s, v, true, true)])
  {
    var es := Entries(n);
    var se := Entry(s, v, true, false);
    assert Entries(m)[|es|].key == s;
    AddKVOutcome(m, s, v, false, true);
    m' := MarkEnd(m, s);
    MarkEndShaped(m, s);
    MarkEndOrdered(m, s);
    MarkEndUnitSteps(m, s);
    MarkEndValueless(m, s);
    MarkEndEntries(m, s);
    forall i | 0 <= i < |es| ensures es[i].key != s {
      LessIrreflexive(s);
    }
    MarkEndKeyAbsent(es, s);
    MarkEndKeyAppend(es, [se], s);
  }

  /** A range whose end is above its start: the end is appended too. */
  lemma AddDistinctEnd<V>(n: Node<V>, m: Node<V>, s: Key, e: Key, v: V) returns (m': Node<V>)
    requires RangeReady(m) && AllBelow(Entries(n), s) && Less(s, e)
    requires Appended(n, m, Entry(s, v, true, false))
    ensures AddKV(m, e, v, false, true) == Ok(m')
    ensures RangeReady(m') && |m'.branches| > 0
    ensures Extended(n, m', [Entry(s, v, true, false), Entry(e, v, false, true)])
  {
    var es := Entries(n);
    forall i | 0 <= i < |Entries(m)| ensures Less(Entries(m)[i].key, e) {
      if i < |es| { LessTransitive(es[i].key, s, e); }
    }
    AddKVAppends(m, e, v, false, true);
    AddKVValueless(m, e, v, false, true);
    m' := AddKV(m, e, v, false, true).value;
  }

  /** The remaining ranges after the first are sorted and above the first. */
  lemma RangesRest<V>(es: seq<Entry<V>>, starts: seq<Key>, ends: seq<Key>, v: V)
    requires |starts| == |ends| > 0 && SortedRanges(starts, ends)
    requires forall j :: 0 <= j < |starts| ==> AllBelow(es, starts[j])
    ensures SortedRanges(starts[1..], ends[1..])
    ensures var es' := es + RangePair(starts[0], ends[0], v);
      forall j :: 0 <= j < |starts[1..]| ==> AllBelow(es', starts[1..][j])
  {
    var es' := es + RangePair(starts[0], ends[0], v);
    forall j | 0 <= j < |starts[1..]| ensures AllBelow(es', starts[1..][j]) {
      var t := starts[j + 1];
      assert starts[1..][j] == t;
      assert AllBelow(es, t);
      assert Less(ends[0], t);
      if starts[0] != ends[0] { LessTransitive(starts[0], ends[0], t); }
      forall i | 0 <= i < |es'| ensures Less(es'[i].key, t) {
        if i < |es| { assert es'[i] == es[i]; }
      }
    }
  }

  lemma {:induction false} AddRangesAppends<V>(n: Node<V>, starts: seq<Key>, ends: seq<Key>, values: seq<V>)
    requires RangeReady(n)
    requires |starts| == |ends| == |values| && SortedRanges(starts, ends)
    requires forall j :: 0 <= j < |starts| ==> AllBelow(Entries(n), starts[j])
    ensures AddRanges(n, starts, ends, values).Ok?
    ensures var m := AddRanges(n, starts, ends, values).value;
      && RangeReady(m) && Extended(n, m, RangeEntries(starts, ends, values))
      && (|starts| > 0 ==> |m.branches| > 0)
    decreases |starts|
  {
    if |starts| == 0 {
      assert Entries(n) + [] == Entries(n);
    } else {
      var m1 := AddOneRange(n, starts[0], ends[0], values[0]);
      var p := RangePair(starts[0], ends[0], values[0]);
      RangesRest(Entries(n), starts, ends, values[0]);
      AddRangesAppends(m1, starts[1..], ends[1..], values[1..]);
      var m := AddRanges(m1, starts[1..], ends[1..], values[1..]).value;
      assert AddRanges(n, starts, ends, values) == AddRanges(m1, starts[1..], ends[1..], values[1..]);
      ExtendedTrans(n, m1, m, p, RangeEntries(starts[1..], ends[1..], values[1..]));
    }
  }

  /** From sorted ranges `NewRangeTrie` builds a shaped, ordered,
      unsquashed trie whose leaves are, range by range, the start flagged
      as a start and the end flagged as an end, or a single leaf flagged
      both when the range's start and end are the same key. */
  lemma RangeBuilds<V>(starts: seq<Key>, ends: seq<Key>, values: seq<V>)
    requires |starts| == |ends| == |values| && SortedRanges(starts, ends)
    ensures NewRangeTrie(starts, ends, Slice(values)).Ok?
    ensures var t := NewRangeTrie(starts, ends, Slice(values)).value;
      && Shaped(t) && Ordered(t) && UnitSteps(t) && Valueless(t) && t.value.None?
      && (|starts| > 0 ==> |t.branches| > 0)
      && Entries(t) == RangeEntries(starts, ends, values)
  {
    var root := NewInner<V>();
    assert Entries(root) == [];
    AddRangesAppends(root, starts, ends, values);
    assert NewRangeTrie(starts, ends, Slice(values)) == AddRanges(root, starts, ends, values);
    var t := AddRanges(root, starts, ends, values).value;
    assert Entries(t) == [] + RangeEntries(starts, ends, values);
  }

  // ---- the error path ----

  lemma {:induction false} AddRangesSplit<V>(n: Node<V>, starts: seq<Key>, ends: seq<Key>, values: seq<V>, m: nat)
    requires |starts| == |ends| == |values| && m <= |starts|
    ensures AddRanges(n, starts, ends, values) ==
      match AddRanges(n, starts[..m], ends[..m], values[..m])
      case Err(e) => Err(e)
      case Ok(t) => AddRanges(t, starts[m..], ends[m..], values[m..])
    decreases m
  {
    if m > 0 {
      assert starts[..m][1..] == starts[1..][..m - 1] && ends[..m][1..] == ends[1..][..m - 1];
      assert values[..m][1..] == values[1..][..m - 1];
      assert starts[1..][m - 1..] == starts[m..] && ends[1..][m - 1..] == ends[m..];
      assert values[1..][m - 1..] == values[m..];
      match AddRange(n, starts[0], ends[0], values[0])
      case Err(e) =>
      case Ok(n1) => AddRangesSplit(n1, starts[1..], ends[1..], values[1..], m - 1);
    } else {
      assert starts[0..] == starts && ends[0..] == ends && values[0..] == values;
    }
  }

  /** The trie the range loop has built from the first m ranges, when they
      are sorted, and the insertion of start m that decides its fate. */
  lemma RangeUpTo<V>(starts: seq<Key>, ends: seq<Key>, values: seq<V>, m: nat) returns (t: Node<V>)
    requires |starts| == |ends| == |values| && m < |starts|
    requires SortedRanges(starts[..m], ends[..m])
    ensures Shaped(t) && (|t.branches| > 0 || t.value.None?)
    ensures Entries(t) == RangeEntries(starts[..m], ends[..m], values[..m])
    ensures AddKV(t, starts[m], values[m], true, false).Err? ==>
      NewRangeTrie(starts, ends, Slice(values)) == AddKV(t, starts[m], values[m], true, false)
  {
    var root := NewInner<V>();
    AddRangesSplit(root, starts, ends, values, m);
    RangeBuilds(starts[..m], ends[..m], values[..m]);
    t := AddRanges(root, starts[..m], ends[..m], values[..m]).value;
    assert starts[m..][0] == starts[m] && values[m..][0] == values[m];
  }

  /** Every start and every end is stored. */
  lemma {:induction false} RangeEntriesHasKey<V>(starts: seq<Key>, ends: seq<Key>, values: seq<V>, j: nat)
    requires |starts| == |ends| == |values| && j < |starts|
    ensures HasKey(RangeEntries(starts, ends, values), starts[j])
    ensures HasKey(RangeEntries(starts, ends, values), ends[j])
    decreases j
  {
    var p := RangePair(starts[0], ends[0], values[0]);
    var rest := RangeEntries(starts[1..], ends[1..], values[1..]);
    HasKeyAppend(p, rest, starts[j]);
    HasKeyAppend(p, rest, ends[j]);
    if j == 0 {
      assert p[0].key == starts[0] && p[|p| - 1].key == ends[0];
    } else {
      RangeEntriesHasKey(starts[1..], ends[1..], values[1..], j - 1);
    }
  }

  /** A start that repeats an earlier start or end, in particular a range
      that starts where the previous one ends, makes `NewRangeTrie` fail
      with a duplicate key: only the end insertion tolerates duplicates. */
  lemma NewRangeReportsRepeatedStart<V>(starts: seq<Key>, ends: seq<Key>, values: seq<V>, m: nat, j: nat)
    requires |starts| == |ends| == |values| && m < |starts| && SortedRanges(starts[..m], ends[..m])
    requires j < m && (starts[m] == starts[j] || starts[m] == ends[j])
    ensures NewRangeTrie(starts, ends, Slice(values)) == Err(DuplicateKeys)
  {
    var t := RangeUpTo(starts, ends, values, m);
    RangeEntriesHasKey(starts[..m], ends[..m], values[..m], j);
    AddKVOutcome(t, starts[m], values[m], true, false);
  }
}
