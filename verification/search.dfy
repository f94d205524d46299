/** The ternary search: one descent that reports the values of the
    greatest key below the query, of the query itself, and of the smallest
    key above it. */
module TernarySearch {
  import opened Keys
  import opened Branches
  import opened TrieNode
  import opened EntryLists

  /** The three nodes the descent tracks: the deepest subtree below the
      query seen so far, the exact-match leaf, the deepest subtree above. */
  datatype Found<V> = Found(lt: Option<Node<V>>, eq: Option<Node<V>>, gt: Option<Node<V>>)

  /** The three values `Search` returns; `None` stands for Go's nil. */
  datatype Answer<V> = Answer(lt: Option<V>, eq: Option<V>, gt: Option<V>)

  ghost predicate Candidate<V>(o: Option<Node<V>>)
  {
    o.Some? ==> Shaped(o.value)
  }

  /** The branch the descent asks for: the next key byte, or the sentinel
      once the key is used up. */
  function BranchOf(q: Key): int
  {
    if |q| == 0 then LeafBranch else q[0] as int
  }

  /** Every child of a shaped node is shaped and stores some key. */
  lemma ChildShaped<V>(n: Node<V>, b: int)
    requires Shaped(n) && b in n.children
    ensures Shaped(n.children[b]) && |Entries(n.children[b])| > 0
  {
    var c := n.children[b];
    if b == LeafBranch {
      assert Elems(c.branches) == {};
    }
    EntriesNonEmpty(c);
  }

  lemma ChildrenShaped<V>(n: Node<V>)
    requires Shaped(n)
    ensures forall b :: b in n.children ==> Shaped(n.children[b])
  {
    forall b | b in n.children ensures Shaped(n.children[b]) {
      if b == LeafBranch {
        assert Elems(n.children[b].branches) == {};
      }
    }
  }

  /** The loop of `Search`, one node per call: `i` bytes of `key` have been
      consumed on the way to `n`; `lt` and `gt` are the candidates found
      further up. The neighbours of the asked-for branch overwrite the
      candidates; the descent then follows the exact branch, stops on the
      sentinel leaf, and stops with the child as the upper candidate when
      the key is shorter than the child's step. */
  function Descend<V>(n: Node<V>, key: Key, i: nat, lt: Option<Node<V>>, gt: Option<Node<V>>): (r: Found<V>)
    requires Shaped(n) && |n.branches| > 0 && i <= |key|
    requires Candidate(lt) && Candidate(gt)
    ensures Candidate(r.lt) && Candidate(r.gt)
    ensures r.eq.Some? ==> IsLeaf(r.eq.value)
    decreases n
  {
    var br := if i == |key| then LeafBranch else key[i] as int;
    var nb := NeighborBranches(n.branches, br);
    ChildrenShaped(n);
    var lt' := if nb.lt >= 0 then Some(n.children[n.branches[nb.lt]]) else lt;
    var gt' := if nb.rt >= 0 then Some(n.children[n.branches[nb.rt]]) else gt;
    if br !in n.children then Found(lt', None, gt')
    else
      var c := n.children[br];
      if br == LeafBranch then Found(lt', Some(c), gt')
      else if i + c.step > |key| then Found(lt', None, Some(c))
      else Descend(c, key, i + c.step, lt', gt')
  }

  /** The values behind the tracked nodes: the rightmost leaf of the lower
      candidate, the exact leaf, the leftmost leaf of the upper candidate. */
  function Resolve<V>(f: Found<V>): Answer<V>
    requires Candidate(f.lt) && Candidate(f.gt)
  {
    Answer(
      if f.lt.Some? then RightMost(f.lt.value).value else None,
      if f.eq.Some? then f.eq.value.value else None,
      if f.gt.Some? then LeftMost(f.gt.value).value else None)
  }

  /** `Search`. The source indexes past the end of an empty root's branch
      list, so the root must have a branch. */
  function Search<V>(root: Node<V>, key: Key): Answer<V>
    requires Shaped(root) && |root.branches| > 0
  {
    Resolve(Descend(root, key, 0, None, None))
  }

  // ---- the reference answer ----

  /** Predecessor, exact match and successor of `q` in an entry list. */
  ghost function Query<V>(es: seq<Entry<V>>, q: Key): Answer<V>
  {
    Answer(LastBelow(es, q), Lookup(es, q), FirstAbove(es, q))
  }

  /** The answer `a`, with `b`'s neighbours where `a` has none. */
  function Fallback<V>(a: Answer<V>, b: Answer<V>): Answer<V>
  {
    Answer(if a.lt.Some? then a.lt else b.lt, a.eq, if a.gt.Some? then a.gt else b.gt)
  }

  function LastValue<V>(es: seq<Entry<V>>): Option<V>
  {
    if |es| == 0 then None else Some(es[|es| - 1].value)
  }

  function FirstValue<V>(es: seq<Entry<V>>): Option<V>
  {
    if |es| == 0 then None else Some(es[0].value)
  }

  /** Around a middle part, a part wholly below `q` and a part wholly above
      it contribute only their nearest entries. */
  lemma QueryParts<V>(l: seq<Entry<V>>, m: seq<Entry<V>>, r: seq<Entry<V>>, q: Key)
    requires forall i :: 0 <= i < |l| ==> Less(l[i].key, q)
    requires forall i :: 0 <= i < |r| ==> Less(q, r[i].key)
    ensures Query(l + m + r, q) == Fallback(Query(m, q), Answer(LastValue(l), None, FirstValue(r)))
  {
    forall i | 0 <= i < |l| ensures l[i].key != q && !Less(q, l[i].key) {
      LessIrreflexive(q);
      LessAsymmetric(l[i].key, q);
    }
    forall i | 0 <= i < |r| ensures r[i].key != q && !Less(r[i].key, q) {
      LessIrreflexive(q);
      LessAsymmetric(q, r[i].key);
    }
    LookupAbsent(l, q);
    LookupAbsent(r, q);
    LastBelowNone(r, q);
    FirstAboveNone(l, q);
    LookupAppend(l + m, r, q);
    LookupAppend(l, m, q);
    LastBelowAppend(l + m, r, q);
    LastBelowAppend(l, m, q);
    FirstAboveAppend(l + m, r, q);
    FirstAboveAppend(l, m, q);
    if |l| > 0 { assert l == l[..|l| - 1] + [l[|l| - 1]]; }
  }

  /** The entries under branches all below the asked-for branch are below
      the query; the last of them is the last entry of the last branch. */
  lemma LowerPart<V>(n: Node<V>, bs: seq<int>, q: Key)
    requires Shaped(n) && Elems(bs) <= n.children.Keys
    requires forall j :: 0 <= j < |bs| ==> bs[j] < BranchOf(q)
    ensures forall i :: 0 <= i < |BranchEntries(n, bs)| ==> Less(BranchEntries(n, bs)[i].key, q)
    ensures |bs| == 0 ==> BranchEntries(n, bs) == []
    ensures |bs| > 0 ==> LastValue(BranchEntries(n, bs)) == LastValue(Entries(n.children[bs[|bs| - 1]]))
  {
    LowerKeys(n, bs, q);
    if |bs| > 0 {
      LastBlock(n, bs);
    }
  }

  lemma LowerKeys<V>(n: Node<V>, bs: seq<int>, q: Key)
    requires Shaped(n) && Elems(bs) <= n.children.Keys
    requires forall j :: 0 <= j < |bs| ==> bs[j] < BranchOf(q)
    ensures forall i :: 0 <= i < |BranchEntries(n, bs)| ==> Less(BranchEntries(n, bs)[i].key, q)
  {
    var es := BranchEntries(n, bs);
    BranchEntriesKeys(n, bs);
    forall i | 0 <= i < |es| ensures Less(es[i].key, q) {
      var k := es[i].key;
      var j :| 0 <= j < |bs| && bs[j] == (if |k| > 0 then k[0] else LeafBranch);
    }
  }

  /** The last entry under a list of branches is the last entry of the
      last branch's child. */
  lemma LastBlock<V>(n: Node<V>, bs: seq<int>)
    requires Shaped(n) && Elems(bs) <= n.children.Keys && |bs| > 0
    ensures LastValue(BranchEntries(n, bs)) == LastValue(Entries(n.children[bs[|bs| - 1]]))
  {
    var k := |bs| - 1;
    var b := bs[k];
    assert bs == bs[..k] + [b];
    BranchEntriesAppend(n, bs[..k], [b]);
    BranchEntriesSingle(n, b);
    ChildShaped(n, b);
  }

  /** The entries under branches all above the asked-for branch are above
      the query; the first of them is the first entry of the first branch. */
  lemma UpperPart<V>(n: Node<V>, bs: seq<int>, q: Key)
    requires Shaped(n) && Elems(bs) <= n.children.Keys
    requires forall j :: 0 <= j < |bs| ==> bs[j] > BranchOf(q)
    ensures forall i :: 0 <= i < |BranchEntries(n, bs)| ==> Less(q, BranchEntries(n, bs)[i].key)
    ensures |bs| == 0 ==> BranchEntries(n, bs) == []
    ensures |bs| > 0 ==> FirstValue(BranchEntries(n, bs)) == FirstValue(Entries(n.children[bs[0]]))
  {
    UpperKeys(n, bs, q);
    if |bs| > 0 {
      BranchEntriesSingle(n, bs[0]);
      ChildShaped(n, bs[0]);
    }
  }

  lemma UpperKeys<V>(n: Node<V>, bs: seq<int>, q: Key)
    requires Shaped(n) && Elems(bs) <= n.children.Keys
    requires forall j :: 0 <= j < |bs| ==> bs[j] > BranchOf(q)
    ensures forall i :: 0 <= i < |BranchEntries(n, bs)| ==> Less(q, BranchEntries(n, bs)[i].key)
  {
    var es := BranchEntries(n, bs);
    BranchEntriesKeys(n, bs);
    forall i | 0 <= i < |es| ensures Less(q, es[i].key) {
      var k := es[i].key;
      var j :| 0 <= j < |bs| && bs[j] == (if |k| > 0 then k[0] else LeafBranch);
    }
  }

  /** The entries of a node, cut around the position of `br`. */
  lemma CutAt<V>(n: Node<V>, br: int, a: nat, z: nat)
    requires Shaped(n) && |n.branches| > 0 && a <= z <= |n.branches|
    requires n.branches[a..z] == if br in n.branches then [br] else []
    ensures var bs := n.branches;
      Entries(n) == BranchEntries(n, bs[..a]) + Block(n, br) + BranchEntries(n, bs[z..])
  {
    var bs := n.branches;
    var p1, p2, p3 := bs[..a], bs[a..z], bs[z..];
    assert bs == p1 + p2 + p3;
    BranchEntriesAppend(n, p1 + p2, p3);
    BranchEntriesAppend(n, p1, p2);
    MiddleBlock(n, br, p2);
  }

  lemma MiddleBlock<V>(n: Node<V>, br: int, p: seq<int>)
    requires Shaped(n) && p == if br in n.branches then [br] else []
    ensures BranchEntries(n, p) == Block(n, br)
  {
    if br in n.branches {
      BranchEntriesSingle(n, br);
    } else {
      assert br !in Elems(n.branches);
    }
  }

  /** The entries under the first `a` branches, all below the query. */
  lemma LowerPrefix<V>(n: Node<V>, a: nat, q: Key)
    requires Shaped(n) && a <= |n.branches|
    requires forall j :: 0 <= j < a ==> n.branches[j] < BranchOf(q)
    ensures var l := BranchEntries(n, n.branches[..a]);
      && (forall i :: 0 <= i < |l| ==> Less(l[i].key, q))
      && LastValue(l) == (if a > 0 then LastValue(Entries(n.children[n.branches[a - 1]])) else None)
  {
    var p := n.branches[..a];
    assert Elems(p) <= Elems(n.branches);
    LowerPart(n, p, q);
    if a > 0 { assert p[a - 1] == n.branches[a - 1]; }
  }

  /** The entries under the branches from `z` on, all above the query. */
  lemma UpperSuffix<V>(n: Node<V>, z: nat, q: Key)
    requires Shaped(n) && z <= |n.branches|
    requires forall j :: z <= j < |n.branches| ==> n.branches[j] > BranchOf(q)
    ensures var r := BranchEntries(n, n.branches[z..]);
      && (forall i :: 0 <= i < |r| ==> Less(q, r[i].key))
      && FirstValue(r) == (if z < |n.branches| then FirstValue(Entries(n.children[n.branches[z]])) else None)
  {
    var p := n.branches[z..];
    assert Elems(p) <= Elems(n.branches);
    UpperPart(n, p, q);
    if z < |n.branches| { assert p[0] == n.branches[z]; }
  }

  /** At one node the entries split into those under the branches below
      the asked-for one, those under it, and those under the branches above;
      the outer parts end and start with the neighbours' entries. */
  lemma SplitAround<V>(n: Node<V>, q: Key) returns (l: seq<Entry<V>>, r: seq<Entry<V>>)
    requires Shaped(n) && Ordered(n) && |n.branches| > 0
    ensures var bs := n.branches;
      var nb := NeighborBranches(bs, BranchOf(q));
      && Entries(n) == l + Block(n, BranchOf(q)) + r
      && (forall i :: 0 <= i < |l| ==> Less(l[i].key, q))
      && (forall i :: 0 <= i < |r| ==> Less(q, r[i].key))
      && LastValue(l) == (if nb.lt >= 0 then LastValue(Entries(n.children[bs[nb.lt]])) else None)
      && FirstValue(r) == (if nb.rt >= 0 then FirstValue(Entries(n.children[bs[nb.rt]])) else None)
  {
    var bs := n.branches;
    var a, z := NeighborSplit(bs, BranchOf(q));
    CutAt(n, BranchOf(q), a, z);
    l := BranchEntries(n, bs[..a]);
    r := BranchEntries(n, bs[z..]);
    LowerPrefix(n, a, q);
    UpperSuffix(n, z, q);
  }

  /** The neighbours' subtrees, resolved, give their last and first entries. */
  lemma NeighborValues<V>(n: Node<V>, br: int, lt: Option<Node<V>>, gt: Option<Node<V>>)
    requires Shaped(n) && |n.branches| > 0
    requires Candidate(lt) && Candidate(gt)
    ensures var bs := n.branches;
      var nb := NeighborBranches(bs, br);
      var lt' := if nb.lt >= 0 then Some(n.children[bs[nb.lt]]) else lt;
      var gt' := if nb.rt >= 0 then Some(n.children[bs[nb.rt]]) else gt;
      && Candidate(lt') && Candidate(gt')
      && Resolve(Found(lt', None, gt')) == Fallback(
           Answer(if nb.lt >= 0 then LastValue(Entries(n.children[bs[nb.lt]])) else None, None,
                  if nb.rt >= 0 then FirstValue(Entries(n.children[bs[nb.rt]])) else None),
           Resolve(Found(lt, None, gt)))
  {
    var bs := n.branches;
    var nb := NeighborBranches(bs, br);
    if nb.lt >= 0 { ChildShaped(n, bs[nb.lt]); }
    if nb.rt >= 0 { ChildShaped(n, bs[nb.rt]); }
  }

  lemma FallbackAssoc<V>(a: Answer<V>, b: Answer<V>, c: Answer<V>)
    ensures Fallback(Fallback(a, b), c) == Fallback(a, Fallback(b, c))
  {
  }

  /** At one node the answer for its entries, completed by the candidates
      from above, is the answer for the asked-for branch completed by the
      candidates the node's neighbours provide. */
  lemma Partition<V>(n: Node<V>, q: Key, lt: Option<Node<V>>, gt: Option<Node<V>>)
    requires Shaped(n) && Ordered(n) && |n.branches| > 0
    requires Candidate(lt) && Candidate(gt)
    ensures var bs := n.branches;
      var nb := NeighborBranches(bs, BranchOf(q));
      var lt' := if nb.lt >= 0 then Some(n.children[bs[nb.lt]]) else lt;
      var gt' := if nb.rt >= 0 then Some(n.children[bs[nb.rt]]) else gt;
      && Candidate(lt') && Candidate(gt')
      && Fallback(Query(Entries(n), q), Resolve(Found(lt, None, gt))) ==
           Fallback(Query(Block(n, BranchOf(q)), q), Resolve(Found(lt', None, gt')))
  {
    var l, r := SplitAround(n, q);
    var m := Block(n, BranchOf(q));
    QueryParts(l, m, r, q);
    NeighborValues(n, BranchOf(q), lt, gt);
    FallbackAssoc(Query(m, q), Answer(LastValue(l), None, FirstValue(r)), Resolve(Found(lt, None, gt)));
  }

  /** A list holding only the empty key answers only the exact match. */
  lemma SingleQuery<V>(e: Entry<V>)
    requires e.key == []
    ensures Query([e], []) == Answer(None, Some(e.value), None)
  {
    var es := [e];
    assert !Less(es[0].key, []) && !Less([], es[0].key);
    assert es[1..] == [] && es[..0] == [];
    assert Lookup(es, []) == Some(e.value);
    assert LastBelow(es, []) == LastBelow(es[..0], []);
    assert FirstAbove(es, []) == FirstAbove(es[1..], []);
  }

  /** The candidates a node's neighbours provide for the query. */
  function Lower<V>(n: Node<V>, q: Key, lt: Option<Node<V>>): Option<Node<V>>
    requires Shaped(n) && |n.branches| > 0
  {
    var nb := NeighborBranches(n.branches, BranchOf(q));
    if nb.lt >= 0 then Some(n.children[n.branches[nb.lt]]) else lt
  }

  function Upper<V>(n: Node<V>, q: Key, gt: Option<Node<V>>): Option<Node<V>>
    requires Shaped(n) && |n.branches| > 0
  {
    var nb := NeighborBranches(n.branches, BranchOf(q));
    if nb.rt >= 0 then Some(n.children[n.branches[nb.rt]]) else gt
  }

  /** The specification of the descent below `n`, with the candidates from above. */
  ghost predicate DescendsRight<V>(n: Node<V>, key: Key, i: nat, lt: Option<Node<V>>, gt: Option<Node<V>>)
    requires Shaped(n) && |n.branches| > 0 && i <= |key|
    requires Candidate(lt) && Candidate(gt)
  {
    Resolve(Descend(n, key, i, lt, gt)) == Fallback(Query(Entries(n), key[i..]), Resolve(Found(lt, None, gt)))
  }

  /** No branch for the next byte: no exact match, only neighbours. */
  lemma DescendMiss<V>(n: Node<V>, key: Key, i: nat, lt: Option<Node<V>>, gt: Option<Node<V>>)
    requires Shaped(n) && Ordered(n) && |n.branches| > 0 && i <= |key|
    requires Candidate(lt) && Candidate(gt)
    requires BranchOf(key[i..]) !in n.children
    ensures DescendsRight(n, key, i, lt, gt)
  {
    var q := key[i..];
    Partition(n, q, lt, gt);
    assert Block(n, BranchOf(q)) == [];
    assert Query<V>([], q) == Answer(None, None, None);
  }

  /** The key is used up and the node has a leaf: the exact match. */
  lemma DescendLeaf<V>(n: Node<V>, key: Key, i: nat, lt: Option<Node<V>>, gt: Option<Node<V>>)
    requires Shaped(n) && Ordered(n) && |n.branches| > 0 && i == |key|
    requires Candidate(lt) && Candidate(gt)
    requires LeafBranch in n.children
    ensures DescendsRight(n, key, i, lt, gt)
  {
    var q := key[i..];
    assert q == [];
    Partition(n, q, lt, gt);
    var c := n.children[LeafBranch];
    var e := Entry([], c.value.value, c.isStartLeaf, c.isEndLeaf);
    assert Block(n, LeafBranch) == [e];
    SingleQuery(e);
    assert Descend(n, key, i, lt, gt) == Found(Lower(n, q, lt), Some(c), Upper(n, q, gt));
  }

  /** The next byte has a branch: the descent continues in the child one
      byte further on, with this node's neighbours as the new candidates. */
  lemma DescendByte<V>(n: Node<V>, key: Key, i: nat, lt: Option<Node<V>>, gt: Option<Node<V>>)
    requires Shaped(n) && Ordered(n) && UnitSteps(n) && |n.branches| > 0 && i < |key|
    requires Candidate(lt) && Candidate(gt)
    requires key[i] as int in n.children
    ensures var q := key[i..];
      var c := n.children[key[i] as int];
      && Shaped(c) && Ordered(c) && UnitSteps(c) && |c.branches| > 0
      && Candidate(Lower(n, q, lt)) && Candidate(Upper(n, q, gt))
      && Descend(n, key, i, lt, gt) == Descend(c, key, i + 1, Lower(n, q, lt), Upper(n, q, gt))
  {
    var q := key[i..];
    assert BranchOf(q) == key[i] as int;
    ByteChild(n, key[i] as int);
    NeighborCandidates(n, q, lt, gt);
  }

  lemma ByteChild<V>(n: Node<V>, b: int)
    requires Shaped(n) && Ordered(n) && UnitSteps(n) && b in n.children && b != LeafBranch
    ensures var c := n.children[b];
      Shaped(c) && Ordered(c) && UnitSteps(c) && |c.branches| > 0 && c.step == 1
  {
  }

  lemma NeighborCandidates<V>(n: Node<V>, q: Key, lt: Option<Node<V>>, gt: Option<Node<V>>)
    requires Shaped(n) && |n.branches| > 0
    requires Candidate(lt) && Candidate(gt)
    ensures Candidate(Lower(n, q, lt)) && Candidate(Upper(n, q, gt))
  {
    ChildrenShaped(n);
  }

  /** ... and the answer is the child's, completed by those candidates. */
  lemma ByteAnswer<V>(n: Node<V>, key: Key, i: nat, lt: Option<Node<V>>, gt: Option<Node<V>>)
    requires Shaped(n) && Ordered(n) && UnitSteps(n) && |n.branches| > 0 && i < |key|
    requires Candidate(lt) && Candidate(gt)
    requires key[i] as int in n.children
    requires Candidate(Lower(n, key[i..], lt)) && Candidate(Upper(n, key[i..], gt))
    requires var q := key[i..];
      var c := n.children[key[i] as int];
      && Shaped(c) && |c.branches| > 0
      && Descend(n, key, i, lt, gt) == Descend(c, key, i + 1, Lower(n, q, lt), Upper(n, q, gt))
      && DescendsRight(c, key, i + 1, Lower(n, q, lt), Upper(n, q, gt))
    ensures DescendsRight(n, key, i, lt, gt)
  {
    var q := key[i..];
    Partition(n, q, lt, gt);
    ByteBlockQuery(n, key, i);
  }

  /** Below the branch of the key's next byte, the query is the child's
      query for the rest of the key. */
  lemma ByteBlockQuery<V>(n: Node<V>, key: Key, i: nat)
    requires i < |key| && key[i] as int in n.children
    ensures BranchOf(key[i..]) == key[i] as int
    ensures Query(Block(n, key[i] as int), key[i..]) == Query(Entries(n.children[key[i] as int]), key[i + 1..])
  {
    var x := key[i];
    var c := n.children[x as int];
    assert key[i..] == [x] + key[i + 1..];
    assert Block(n, x as int) == Prefixed(x as int, Entries(c));
    PrefixedQueries(x, Entries(c), key[i + 1..]);
  }

  /** The descent over an ordered, unsquashed trie answers the reference
      query for the rest of the key, falling back on the candidates from
      above where the subtree has no neighbour. */
  lemma {:induction false} DescendSpec<V>(n: Node<V>, key: Key, i: nat, lt: Option<Node<V>>, gt: Option<Node<V>>)
    requires Shaped(n) && Ordered(n) && UnitSteps(n) && |n.branches| > 0 && i <= |key|
    requires Candidate(lt) && Candidate(gt)
    ensures Resolve(Descend(n, key, i, lt, gt)) ==
      Fallback(Query(Entries(n), key[i..]), Resolve(Found(lt, None, gt)))
    decreases n
  {
    var q := key[i..];
    if BranchOf(q) !in n.children {
      DescendMiss(n, key, i, lt, gt);
    } else if i == |key| {
      DescendLeaf(n, key, i, lt, gt);
    } else {
      DescendByte(n, key, i, lt, gt);
      DescendSpec(n.children[key[i] as int], key, i + 1, Lower(n, q, lt), Upper(n, q, gt));
      ByteAnswer(n, key, i, lt, gt);
    }
  }

  /** On an ordered, unsquashed trie `Search` returns the value of the
      greatest stored key below the query, the value stored under the query,
      and the value of the smallest stored key above it. */
  lemma SearchIsQuery<V>(root: Node<V>, key: Key)
    requires Shaped(root) && Ordered(root) && UnitSteps(root) && |root.branches| > 0
    ensures Search(root, key) == Query(Entries(root), key)
  {
    DescendSpec(root, key, 0, None, None);
    assert key[0..] == key;
  }
}
