/** Pruning a range trie: after `RemoveEndLeaves` only start leaves remain,
    and inner nodes left without branches are cut off. */
module EndLeaves {
  import opened Keys
  import opened Branches
  import opened TrieNode
  import opened EntryLists
  import opened Insert
  import opened TernarySearch
  import opened RangeTrie

  /** A leaf that closes a range without opening one. */
  predicate EndOnly<V>(leaf: Node<V>)
  {
    leaf.isEndLeaf && !leaf.isStartLeaf
  }

  /** The node's own leaf is end-only and goes first. */
  predicate DropsLeaf<V>(n: Node<V>)
  {
    LeafBranch in n.children && EndOnly(n.children[LeafBranch])
  }

  /** The branch list once the end-only leaf, if any, is removed. */
  function LeafDropped<V>(n: Node<V>): seq<int>
  {
    if DropsLeaf(n) then RemoveBranch(n.branches, LeafBranch) else n.branches
  }

  /** The children that survive the leaf removal. */
  function KeptKeys<V>(n: Node<V>): set<int>
  {
    set k | k in n.children && !(DropsLeaf(n) && k == LeafBranch)
  }

  /** A child after the loop has visited it: one with branches is pruned,
      a leaf is left alone. */
  function PruneChild<V>(c: Node<V>): (r: Node<V>)
    ensures r.step == c.step && r.value == c.value
    decreases c, 3
  {
    if |c.branches| == 0 then c else RemoveEndLeaves(c)
  }

  /** The children that pruning leaves without branches: they are cut off. */
  function CutKeys<V>(n: Node<V>): set<int>
    decreases n, 1
  {
    set k | k in KeptKeys(n) && |n.children[k].branches| > 0 && |PruneChild(n.children[k]).branches| == 0
  }

  /** `RemoveEndLeaves`: drop the node's own end-only leaf, prune every
      child that has branches, and cut off the children that pruning left
      without branches. The branch list loses its entries with
      `removeBranch`, the leaf first and then the cut children in the order
      of the branch list. */
  function RemoveEndLeaves<V>(n: Node<V>): (r: Node<V>)
    ensures r.step == n.step && r.value == n.value
    decreases n, 2
  {
    var bs := LeafDropped(n);
    var cut := CutKeys(n);
    n.(children := map k | k in KeptKeys(n) && k !in cut :: PruneChild(n.children[k]),
       branches := RemoveBranches(bs, bs, cut))
  }

  // ---- the shape after pruning ----

  lemma LeafDroppedAscending<V>(n: Node<V>)
    requires Shaped(n) && Ordered(n)
    ensures Ascending(LeafDropped(n)) && Elems(LeafDropped(n)) == KeptKeys(n)
  {
    if DropsLeaf(n) {
      RemoveBranchAscending(n.branches, LeafBranch);
    }
  }

  lemma PrunedChildren<V>(n: Node<V>)
    ensures RemoveEndLeaves(n).children.Keys == KeptKeys(n) - CutKeys(n)
  {
  }

  /** The pruned branch list is ascending and lists exactly the children
      that stay. */
  lemma PrunedBranches<V>(n: Node<V>)
    requires Shaped(n) && Ordered(n)
    ensures var r := RemoveEndLeaves(n);
      && Ascending(r.branches)
      && Elems(r.branches) == KeptKeys(n) - CutKeys(n) == r.children.Keys
  {
    LeafDroppedAscending(n);
    PrunedBranchesInOrder(n);
    PrunedChildren(n);
  }

  /** Whatever order the cut children are removed in, the pruned branch
      list is the old one without the dropped leaf and the cut children. */
  lemma PrunedBranchesInOrder<V>(n: Node<V>)
    requires Shaped(n) && Ordered(n)
    ensures RemoveEndLeaves(n).branches == Without(LeafDropped(n), CutKeys(n))
  {
    var bs := LeafDropped(n);
    var cut := CutKeys(n);
    LeafDroppedAscending(n);
    RemoveBranchesIsWithout(bs, bs, cut);
    assert Elems(bs) * cut == cut;
  }

  /** Pruning keeps a trie shaped and ordered: every child that stays and
      is not a leaf still has a branch. */
  lemma {:induction false} PruneShaped<V>(n: Node<V>)
    requires Shaped(n) && Ordered(n)
    ensures Shaped(RemoveEndLeaves(n)) && Ordered(RemoveEndLeaves(n))
    decreases n
  {
    var r := RemoveEndLeaves(n);
    PrunedBranches(n);
    forall k | k in r.children
      ensures (k == LeafBranch ==> IsLeaf(r.children[k]))
      ensures (k != LeafBranch ==> |r.children[k].branches| > 0 && Shaped(r.children[k]))
      ensures Ordered(r.children[k])
    {
      var c := n.children[k];
      assert r.children[k] == PruneChild(c);
      if k != LeafBranch {
        PruneShaped(c);
        assert k !in CutKeys(n);
      }
    }
  }

  lemma {:induction false} PruneUnitSteps<V>(n: Node<V>)
    requires UnitSteps(n)
    ensures UnitSteps(RemoveEndLeaves(n))
    decreases n
  {
    var r := RemoveEndLeaves(n);
    forall k | k in r.children && k != LeafBranch
      ensures r.children[k].step == 1 && UnitSteps(r.children[k])
    {
      var c := n.children[k];
      assert r.children[k] == PruneChild(c);
      if |c.branches| > 0 { PruneUnitSteps(c); }
    }
  }

  lemma {:induction false} PruneValueless<V>(n: Node<V>)
    requires Valueless(n)
    ensures Valueless(RemoveEndLeaves(n))
    decreases n
  {
    var r := RemoveEndLeaves(n);
    forall k | k in r.children && k != LeafBranch
      ensures r.children[k].value.None? && Valueless(r.children[k])
    {
      var c := n.children[k];
      assert r.children[k] == PruneChild(c);
      if |c.branches| > 0 { PruneValueless(c); }
    }
  }

  // ---- the entry list after pruning ----

  predicate EndOnlyEntry<V>(e: Entry<V>)
  {
    e.isEndLeaf && !e.isStartLeaf
  }

  /** The entries that are not end-only, in order. */
  ghost function KeepStarts<V>(es: seq<Entry<V>>): (r: seq<Entry<V>>)
    ensures |r| <= |es|
  {
    if |es| == 0 then []
    else (if EndOnlyEntry(es[0]) then [] else [es[0]]) + KeepStarts(es[1..])
  }

  /** The kept entries are exactly the entries that are not end-only. */
  lemma {:induction false} KeepStartsMembers<V>(es: seq<Entry<V>>, e: Entry<V>)
    ensures e in KeepStarts(es) <==> e in es && !EndOnlyEntry(e)
  {
    if |es| > 0 {
      KeepStartsMembers(es[1..], e);
      assert e in es <==> e == es[0] || e in es[1..];
    }
  }

  lemma {:induction false} KeepStartsAppend<V>(a: seq<Entry<V>>, b: seq<Entry<V>>)
    ensures KeepStarts(a + b) == KeepStarts(a) + KeepStarts(b)
  {
    if |a| == 0 {
      assert a + b == b;
    } else {
      assert (a + b)[1..] == a[1..] + b;
      KeepStartsAppend(a[1..], b);
    }
  }

  lemma {:induction false} KeepStartsPrefixed<V>(x: int, es: seq<Entry<V>>)
    ensures KeepStarts(Prefixed(x, es)) == Prefixed(x, KeepStarts(es))
    decreases |es|
  {
    if |es| > 0 {
      var p := Prefixed(x, es);
      assert p[1..] == Prefixed(x, es[1..]);
      KeepStartsPrefixed(x, es[1..]);
      var head := if EndOnlyEntry(es[0]) then [] else [es[0]];
      PrefixedAppend(x, head, KeepStarts(es[1..]));
      assert Prefixed(x, head) == (if EndOnlyEntry(p[0]) then [] else [p[0]]);
    }
  }

  /** Every kept entry of the listed branches survives, in order, when the
      dropped branches hold nothing worth keeping and the others hold
      exactly the kept entries. */
  lemma {:induction false} BranchEntriesWithout<V>(n: Node<V>, r: Node<V>, bs: seq<int>, drop: set<int>)
    requires forall b :: b in Elems(bs) && b in drop ==> KeepStarts(Block(n, b)) == []
    requires forall b :: b in Elems(bs) && b !in drop ==> Block(r, b) == KeepStarts(Block(n, b))
    ensures BranchEntries(r, Without(bs, drop)) == KeepStarts(BranchEntries(n, bs))
    decreases |bs|
  {
    if |bs| > 0 {
      var b := bs[0];
      var w := Without(bs[1..], drop);
      assert b in Elems(bs);
      assert Elems(bs[1..]) <= Elems(bs);
      BranchEntriesWithout(n, r, bs[1..], drop);
      KeepStartsAppend(Block(n, b), BranchEntries(n, bs[1..]));
      if b !in drop {
        assert ([b] + w)[1..] == w;
      }
    }
  }

  /** The branches pruning removes: the end-only leaf and the cut children. */
  function Removed<V>(n: Node<V>): set<int>
  {
    (if DropsLeaf(n) then {LeafBranch} else {}) + CutKeys(n)
  }

  lemma PrunedBranchesAll<V>(n: Node<V>)
    requires Shaped(n) && Ordered(n)
    ensures RemoveEndLeaves(n).branches == Without(n.branches, Removed(n))
  {
    PrunedBranches(n);
    LeafDroppedAscending(n);
    AscendingUnique(RemoveEndLeaves(n).branches, Without(n.branches, Removed(n)));
  }

  /** A node without a value stores exactly the entries of its branches. */
  lemma EntriesOfBranches<V>(n: Node<V>)
    requires n.value.None?
    ensures Entries(n) == BranchEntries(n, n.branches)
  {
  }

  /** A child that is not removed stays, visited by the loop. */
  lemma PrunedChildAt<V>(n: Node<V>, k: int)
    requires k in n.children && k !in Removed(n)
    ensures k in RemoveEndLeaves(n).children
    ensures RemoveEndLeaves(n).children[k] == PruneChild(n.children[k])
  {
    assert k in KeptKeys(n);
  }

  /** What pruning does to one branch: a removed branch held only
      end-only entries, a kept one holds exactly its non-end-only entries. */
  lemma PruneBlock<V>(n: Node<V>, b: int)
    requires Shaped(n) && Valueless(n) && b in n.children
    requires b != LeafBranch ==>
      Entries(PruneChild(n.children[b])) == KeepStarts(Entries(n.children[b]))
    ensures b in Removed(n) ==> KeepStarts(Block(n, b)) == []
    ensures b !in Removed(n) ==> Block(RemoveEndLeaves(n), b) == KeepStarts(Block(n, b))
  {
    if b !in Removed(n) {
      PrunedChildAt(n, b);
    }
    if b == LeafBranch {
      PruneLeafBlock(n);
    } else {
      KeepStartsPrefixed(b, Entries(n.children[b]));
      if b in Removed(n) {
        assert b in CutKeys(n);
      }
    }
  }

  lemma PruneLeafBlock<V>(n: Node<V>)
    requires Shaped(n) && LeafBranch in n.children
    ensures LeafBranch in Removed(n) ==> KeepStarts(Block(n, LeafBranch)) == []
    ensures LeafBranch !in Removed(n) ==> KeepStarts(Block(n, LeafBranch)) == Block(n, LeafBranch)
  {
    var c := n.children[LeafBranch];
    var e := Entry([], c.value.value, c.isStartLeaf, c.isEndLeaf);
    assert Block(n, LeafBranch) == [e];
    assert KeepStarts([e]) == (if EndOnlyEntry(e) then [] else [e]);
    assert LeafBranch !in CutKeys(n);
  }

  /** Pruning removes exactly the end-only leaves: the pruned trie stores
      the entries of the original that are not end-only, in order. */
  lemma {:induction false} PruneEntries<V>(n: Node<V>)
    requires Shaped(n) && Ordered(n) && Valueless(n) && n.value.None?
    ensures Entries(RemoveEndLeaves(n)) == KeepStarts(Entries(n))
    decreases n
  {
    var r := RemoveEndLeaves(n);
    var bs := n.branches;
    var drop := Removed(n);
    forall b | b in Elems(bs)
      ensures b in drop ==> KeepStarts(Block(n, b)) == []
      ensures b !in drop ==> Block(r, b) == KeepStarts(Block(n, b))
    {
      if b != LeafBranch && |n.children[b].branches| > 0 {
        PruneEntries(n.children[b]);
      }
      PruneBlock(n, b);
    }
    BranchEntriesWithout(n, r, bs, drop);
    PrunedBranchesAll(n);
    EntriesOfBranches(n);
    EntriesOfBranches(r);
  }

  /** After pruning no end-only leaf is left, and the trie is still well
      formed: at no depth is an inner node left without branches. */
  lemma PruneClean<V>(n: Node<V>)
    requires Shaped(n) && Ordered(n) && Valueless(n) && n.value.None?
    ensures var r := RemoveEndLeaves(n);
      && Shaped(r)
      && (forall i :: 0 <= i < |Entries(r)| ==> !EndOnlyEntry(Entries(r)[i]))
  {
    var r := RemoveEndLeaves(n);
    PruneShaped(n);
    PruneEntries(n);
    forall i | 0 <= i < |Entries(r)| ensures !EndOnlyEntry(Entries(r)[i]) {
      KeepStartsMembers(Entries(n), Entries(r)[i]);
    }
  }

  // ---- searching a pruned range trie ----

  /** One leaf per range: its start, flagged as an end too when the range
      ends where it starts. */
  ghost function RangeStarts<V>(starts: seq<Key>, ends: seq<Key>, values: seq<V>): (r: seq<Entry<V>>)
    requires |starts| == |ends| == |values|
    ensures |r| == |starts|
  {
    seq(|starts|, i requires 0 <= i < |starts| => Entry(starts[i], values[i], true, starts[i] == ends[i]))
  }

  lemma {:induction false} KeepStartsRange<V>(starts: seq<Key>, ends: seq<Key>, values: seq<V>)
    requires |starts| == |ends| == |values|
    ensures KeepStarts(RangeEntries(starts, ends, values)) == RangeStarts(starts, ends, values)
    decreases |starts|
  {
    if |starts| > 0 {
      var s, e, v := starts[0], ends[0], values[0];
      var pair := RangePair(s, e, v);
      KeepStartsAppend(pair, RangeEntries(starts[1..], ends[1..], values[1..]));
      KeepStartsRange(starts[1..], ends[1..], values[1..]);
      if s == e {
        assert KeepStarts(pair) == [Entry(s, v, true, true)];
      } else {
        assert pair[1..] == [Entry(e, v, false, true)];
        assert KeepStarts(pair) == [Entry(s, v, true, false)];
      }
      assert RangeStarts(starts, ends, values)
        == [Entry(s, v, true, s == e)] + RangeStarts(starts[1..], ends[1..], values[1..]);
    }
  }

  /** A node without a value that stores something has a branch. */
  lemma BranchesOfEntries<V>(n: Node<V>)
    requires n.value.None? && |Entries(n)| > 0
    ensures |n.branches| > 0
  {
  }

  /** Building a range trie from sorted ranges and pruning its end leaves
      leaves one leaf per range start: a search then reports the value of
      the range starting at the key, the value of the nearest range start
      below it and that of the nearest range start above it. */
  lemma RangeSearch<V>(starts: seq<Key>, ends: seq<Key>, values: seq<V>, q: Key)
    requires |starts| == |ends| == |values| > 0 && SortedRanges(starts, ends)
    ensures NewRangeTrie(starts, ends, Slice(values)).Ok?
    ensures var p := RemoveEndLeaves(NewRangeTrie(starts, ends, Slice(values)).value);
      && Shaped(p) && |p.branches| > 0
      && Entries(p) == RangeStarts(starts, ends, values)
      && Search(p, q) == Query(RangeStarts(starts, ends, values), q)
  {
    RangeBuilds(starts, ends, values);
    var t := NewRangeTrie(starts, ends, Slice(values)).value;
    var p := RemoveEndLeaves(t);
    assert t.value.None?;
    PruneShaped(t);
    PruneUnitSteps(t);
    PruneEntries(t);
    KeepStartsRange(starts, ends, values);
    BranchesOfEntries(p);
    SearchIsQuery(p, q);
  }

  /** Range starts ascend: each start is at most its end, which is below
      the next start. */
  lemma RangeStartsSorted<V>(starts: seq<Key>, ends: seq<Key>, values: seq<V>)
    requires |starts| == |ends| == |values| && SortedRanges(starts, ends)
    ensures SortedKeys(RangeStarts(starts, ends, values))
  {
    var es := RangeStarts(starts, ends, values);
    forall i, j | 0 <= i < j < |es| ensures Less(es[i].key, es[j].key) {
      if starts[i] != ends[i] {
        LessTransitive(starts[i], ends[i], starts[j]);
      }
    }
  }

  /** After pruning, an exact match fires only on a range start: a key
      that is no start (an end-only boundary, or any other key) finds
      nothing, and a start finds the value of its own range. */
  lemma RangeSearchExact<V>(starts: seq<Key>, ends: seq<Key>, values: seq<V>, q: Key)
    requires |starts| == |ends| == |values| > 0 && SortedRanges(starts, ends)
    ensures NewRangeTrie(starts, ends, Slice(values)).Ok?
    ensures var p := RemoveEndLeaves(NewRangeTrie(starts, ends, Slice(values)).value);
      && Shaped(p) && |p.branches| > 0
      && (Search(p, q).eq.Some? <==> q in starts)
      && (forall i :: 0 <= i < |starts| && starts[i] == q ==> Search(p, q).eq == Some(values[i]))
  {
    RangeSearch(starts, ends, values, q);
    var es := RangeStarts(starts, ends, values);
    if q in starts {
      var i :| 0 <= i < |starts| && starts[i] == q;
      RangeStartsSorted(starts, ends, values);
      SortedLookup(es, i);
      forall k | 0 <= k < |starts| && starts[k] == q ensures Lookup(es, q) == Some(values[k]) {
        SortedLookup(es, k);
      }
    } else {
      LookupAbsent(es, q);
    }
  }
}
