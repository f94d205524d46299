/** Path compression: every inner node below the root whose only branch is
    a byte is replaced by its (already compressed) child, whose step grows
    by one for each node removed above it. */
module Squashing {
  import opened Keys
  import opened Branches
  import opened TrieNode
  import opened EntryLists
  import opened TernarySearch
  import opened Insert

  /** A node `Squash` removes: its only branch is a byte. */
  predicate Collapsible<V>(m: Node<V>)
  {
    |m.branches| == 1 && m.branches[0] != LeafBranch
  }

  /** `Squash`: the root keeps its branches, step and value; each child is
      compressed. The root itself is never replaced. */
  function Squash<V>(n: Node<V>): (r: Node<V>)
    requires Shaped(n)
    ensures r.branches == n.branches && r.children.Keys == n.children.Keys
    ensures r.step == n.step && r.value == n.value
    decreases n, 0
  {
    ChildrenShaped(n);
    var r := n.(children := map k | k in n.children :: SquashChild(n.children[k]));
    r
  }

  /** One child as `Squash` leaves it: compressed, and if it is collapsible
      then its only child, one step longer, takes its place. */
  function SquashChild<V>(m: Node<V>): (r: Node<V>)
    requires Shaped(m)
    decreases m, 1
  {
    var s := Squash(m);
    if Collapsible(s) then
      var c := s.children[s.branches[0]];
      c.(step := c.step + 1)
    else s
  }

  /** No node below `n` is collapsible: `Squash` has nothing left to do. */
  ghost predicate Compressed<V>(n: Node<V>)
  {
    forall b :: b in n.children ==> !Collapsible(n.children[b]) && Compressed(n.children[b])
  }

  // ---- the shape survives ----

  /** The compressed trie is shaped; a compressed child with branches still
      has branches, and a leaf is left as it is. */
  lemma {:induction false} SquashShaped<V>(n: Node<V>)
    requires Shaped(n)
    ensures Shaped(Squash(n))
    decreases n, 0
  {
    var r := Squash(n);
    forall b | b in n.children
      ensures Shaped(r.children[b])
      ensures b != LeafBranch ==> |r.children[b].branches| > 0
      ensures b == LeafBranch ==> r.children[b] == n.children[b]
    {
      ChildShaped(n, b);
      SquashChildShaped(n.children[b]);
    }
  }

  lemma {:induction false} SquashChildShaped<V>(m: Node<V>)
    requires Shaped(m)
    ensures Shaped(SquashChild(m))
    ensures |m.branches| > 0 ==> |SquashChild(m).branches| > 0
    ensures IsLeaf(m) ==> SquashChild(m) == m
    decreases m, 1
  {
    SquashShaped(m);
    var s := Squash(m);
    if Collapsible(s) {
      var c := s.children[s.branches[0]];
      assert Shaped(c) && |c.branches| > 0;
      assert Shaped(c.(step := c.step + 1));
    }
    if IsLeaf(m) {
      assert s.children == map[];
      assert s == m;
    }
  }

  /** Compression keeps every branch list ascending. */
  lemma {:induction false} SquashOrdered<V>(n: Node<V>)
    requires Shaped(n) && Ordered(n)
    ensures Ordered(Squash(n))
    decreases n, 0
  {
    forall b | b in n.children ensures Ordered(Squash(n).children[b]) {
      ChildShaped(n, b);
      SquashChildOrdered(n.children[b]);
    }
  }

  lemma {:induction false} SquashChildOrdered<V>(m: Node<V>)
    requires Shaped(m) && Ordered(m)
    ensures Ordered(SquashChild(m))
    decreases m, 1
  {
    SquashOrdered(m);
    var s := Squash(m);
    if Collapsible(s) {
      var c := s.children[s.branches[0]];
      assert Ordered(c.(step := c.step + 1));
    }
  }

  // ---- nothing is left to compress ----

  /** After `Squash` no node below the root is collapsible. */
  lemma {:induction false} SquashCompressed<V>(n: Node<V>)
    requires Shaped(n)
    ensures Compressed(Squash(n))
    decreases n, 0
  {
    forall b | b in n.children
      ensures !Collapsible(Squash(n).children[b]) && Compressed(Squash(n).children[b])
    {
      ChildShaped(n, b);
      SquashChildCompressed(n.children[b]);
    }
  }

  lemma {:induction false} SquashChildCompressed<V>(m: Node<V>)
    requires Shaped(m)
    ensures !Collapsible(SquashChild(m)) && Compressed(SquashChild(m))
    decreases m, 1
  {
    SquashCompressed(m);
    var s := Squash(m);
    if Collapsible(s) {
      var b := s.branches[0];
      ChildShaped(m, b);
      SquashChildCompressed(m.children[b]);
      var c := s.children[b];
      assert c == SquashChild(m.children[b]);
      assert Compressed(c.(step := c.step + 1));
    }
  }

  /** A compressed trie is left as it is. */
  lemma {:induction false} SquashCompressedFixed<V>(n: Node<V>)
    requires Shaped(n) && Compressed(n)
    ensures Squash(n) == n
    decreases n
  {
    var r := Squash(n);
    forall b | b in n.children ensures r.children[b] == n.children[b] {
      var c := n.children[b];
      ChildShaped(n, b);
      SquashCompressedFixed(c);
      assert !Collapsible(c) && !Collapsible(Squash(c));
      assert r.children[b] == SquashChild(c) == Squash(c);
    }
    assert r.children == n.children;
  }

  /** `Squash` is idempotent. */
  lemma SquashIdempotent<V>(n: Node<V>)
    requires Shaped(n)
    ensures Shaped(Squash(n)) && Squash(Squash(n)) == Squash(n)
  {
    SquashShaped(n);
    SquashCompressed(n);
    SquashCompressedFixed(Squash(n));
  }

  // ---- the outermost leaves stay where they were ----

  /** The leftmost and rightmost leaves keep their values, so the lower and
      upper neighbours a search resolves through a compressed subtree are
      the ones it resolves through the original subtree. */
  lemma {:induction false} SquashEnds<V>(n: Node<V>)
    requires Shaped(n)
    ensures Shaped(Squash(n))
    ensures RightMost(Squash(n)).value == RightMost(n).value
    ensures LeftMost(Squash(n)).value == LeftMost(n).value
    decreases n, 0
  {
    SquashShaped(n);
    var bs := n.branches;
    if |bs| > 0 {
      var first, last := bs[0], bs[|bs| - 1];
      ChildShaped(n, first);
      ChildShaped(n, last);
      SquashChildEnds(n.children[first]);
      SquashChildEnds(n.children[last]);
    }
  }

  lemma {:induction false} SquashChildEnds<V>(m: Node<V>)
    requires Shaped(m)
    ensures Shaped(SquashChild(m))
    ensures RightMost(SquashChild(m)).value == RightMost(m).value
    ensures LeftMost(SquashChild(m)).value == LeftMost(m).value
    decreases m, 1
  {
    SquashChildShaped(m);
    SquashEnds(m);
    var s := Squash(m);
    if Collapsible(s) {
      var c := s.children[s.branches[0]];
      StepIrrelevant(c, c.step + 1);
    }
  }

  /** The outermost leaves do not depend on a node's own step. */
  lemma StepIrrelevant<V>(c: Node<V>, k: nat)
    requires Shaped(c)
    ensures Shaped(c.(step := k))
    ensures RightMost(c.(step := k)).value == RightMost(c).value
    ensures LeftMost(c.(step := k)).value == LeftMost(c).value
  {
    assert Shaped(c.(step := k));
  }

  // ---- what replaces a child: the end of its chain ----

  /** Independent description of a compressed child: follow the only byte
      branch down while there is one. `Bottom` is the node reached and
      `Depth` the number of collapsible nodes passed on the way. */
  ghost function Bottom<V>(m: Node<V>): Node<V>
    requires Shaped(m)
    decreases m
  {
    if Collapsible(m) then Bottom(m.children[m.branches[0]]) else m
  }

  ghost function Depth<V>(m: Node<V>): nat
    requires Shaped(m)
    decreases m
  {
    if Collapsible(m) then 1 + Depth(m.children[m.branches[0]]) else 0
  }

  /** A compressed child is the compressed end of its chain, whose step has
      grown by exactly one for each node removed above it. */
  lemma {:induction false} SquashChildCollapses<V>(m: Node<V>)
    requires Shaped(m)
    ensures Shaped(Bottom(m)) && !Collapsible(Bottom(m))
    ensures SquashChild(m) == Squash(Bottom(m)).(step := Bottom(m).step + Depth(m))
    decreases m
  {
    var s := Squash(m);
    if Collapsible(m) {
      var b := m.branches[0];
      SquashChildCollapses(m.children[b]);
      assert s.children[b] == SquashChild(m.children[b]);
    } else {
      assert SquashChild(m) == s;
    }
  }

  /** In an unsquashed trie the end of a chain is an inner node of step one
      with branches, and the chain spells `Depth` bytes. */
  lemma {:induction false} BottomUnit<V>(m: Node<V>)
    requires Shaped(m) && UnitSteps(m) && |m.branches| > 0
    ensures Shaped(Bottom(m)) && UnitSteps(Bottom(m)) && |Bottom(m).branches| > 0
    ensures Depth(m) > 0 ==> Bottom(m).step == 1
    decreases m
  {
    if Collapsible(m) {
      BottomUnit(m.children[m.branches[0]]);
    }
  }

  /** In a trie built one byte per level, a compressed byte child consumes
      one byte for itself and one for every node removed above it. */
  lemma CompressedStep<V>(n: Node<V>, b: int)
    requires Shaped(n) && UnitSteps(n) && b in n.children && b != LeafBranch
    ensures SquashChild(n.children[b]).step == 1 + Depth(n.children[b])
  {
    var c := n.children[b];
    SquashChildCollapses(c);
    BottomUnit(c);
  }

  // ---- searching a compressed trie for a stored key ----

  /** Two candidate subtrees that resolve to the same neighbour values. */
  ghost predicate Twin<V>(a: Option<Node<V>>, b: Option<Node<V>>)
  {
    && a.Some? == b.Some?
    && (a.Some? ==>
          && Shaped(a.value) && Shaped(b.value)
          && RightMost(a.value).value == RightMost(b.value).value
          && LeftMost(a.value).value == LeftMost(b.value).value)
  }

  lemma ResolveTwins<V>(a: Option<Node<V>>, b: Option<Node<V>>, e: Option<Node<V>>, a': Option<Node<V>>, b': Option<Node<V>>)
    requires Twin(a, a') && Twin(b, b')
    ensures Candidate(a) && Candidate(b) && Candidate(a') && Candidate(b')
    ensures Resolve(Found(a, e, b)) == Resolve(Found(a', e, b'))
  {
  }

  /** A stored key selects an existing branch. */
  lemma KeyBranch<V>(n: Node<V>, q: Key)
    requires Shaped(n) && |n.branches| > 0 && HasKey(Entries(n), q)
    ensures BranchOf(q) in n.children
  {
    var es := Entries(n);
    EntriesKeys(n);
    var i :| 0 <= i < |es| && es[i].key == q;
  }

  /** A stored key that starts with byte `x` is stored, without `x`, below
      the child of `x`. */
  lemma ChildHasKey<V>(n: Node<V>, q: Key)
    requires Shaped(n) && |q| > 0 && q[0] as int in n.children && HasKey(Entries(n), q)
    ensures HasKey(Entries(n.children[q[0] as int]), q[1..])
  {
    var x := q[0];
    var bs := n.branches;
    assert x as int in Elems(bs);
    var p :| 0 <= p < |bs| && bs[p] == x as int;
    SplitAt(n, p);
    var l, r := BranchEntries(n, bs[..p]), BranchEntries(n, bs[p + 1..]);
    ForeignBranch(l, bs[..p], q);
    ForeignBranch(r, bs[p + 1..], q);
    HasKeyAppend(l + Block(n, x as int), r, q);
    HasKeyAppend(l, Block(n, x as int), q);
    assert q == [x] + q[1..];
    PrefixedHasKey(x, Entries(n.children[x as int]), q[1..]);
  }

  /** One step of the descent into the byte child the key selects, when
      the key is long enough for the child's step. */
  lemma DescendStep<V>(n: Node<V>, key: Key, i: nat, lt: Option<Node<V>>, gt: Option<Node<V>>, c: Node<V>, k: nat)
      returns (lt': Option<Node<V>>, gt': Option<Node<V>>)
    requires Shaped(n) && |n.branches| > 0 && i < |key| && Candidate(lt) && Candidate(gt)
    requires key[i] as int in n.children && c == n.children[key[i] as int] && k == i + c.step && k <= |key|
    ensures Shaped(c) && |c.branches| > 0 && Candidate(lt') && Candidate(gt')
    ensures lt' == Lower(n, key[i..], lt) && gt' == Upper(n, key[i..], gt)
    ensures Descend(n, key, i, lt, gt) == Descend(c, key, k, lt', gt')
  {
    var q := key[i..];
    assert BranchOf(q) == key[i] as int;
    NeighborCandidates(n, q, lt, gt);
    lt', gt' := Lower(n, q, lt), Upper(n, q, gt);
    DescendInto(n, key, i, lt, gt, c, lt', gt');
  }

  lemma DescendInto<V>(n: Node<V>, key: Key, i: nat, lt: Option<Node<V>>, gt: Option<Node<V>>, c: Node<V>,
      lt': Option<Node<V>>, gt': Option<Node<V>>)
    requires Shaped(n) && |n.branches| > 0 && i < |key| && Candidate(lt) && Candidate(gt)
    requires key[i] as int in n.children && c == n.children[key[i] as int] && i + c.step <= |key|
    requires Shaped(c) && |c.branches| > 0 && Candidate(lt') && Candidate(gt')
    requires var nb := NeighborBranches(n.branches, key[i] as int);
      && lt' == (if nb.lt >= 0 then Some(n.children[n.branches[nb.lt]]) else lt)
      && gt' == (if nb.rt >= 0 then Some(n.children[n.branches[nb.rt]]) else gt)
    ensures Descend(n, key, i, lt, gt) == Descend(c, key, i + c.step, lt', gt')
  {
  }

  /** The only branch of a node is nobody's neighbour. */
  lemma LoneBranch(b: int)
    ensures NeighborBranches([b], b) == Neighbors(-1, -1)
  {
    assert FirstAtLeast([b], b) == 0;
  }

  /** The key, from position `j` on, spells the chain below `c`. */
  ghost predicate Follows<V>(c: Node<V>, key: Key, j: nat)
    requires Shaped(c)
    decreases c
  {
    Collapsible(c) ==>
      j < |key| && key[j] as int == c.branches[0] && Follows(c.children[c.branches[0]], key, j + 1)
  }

  /** A stored key spells the chain, and what remains of it is stored
      below the end of the chain. */
  lemma {:induction false} StoredFollows<V>(c: Node<V>, key: Key, j: nat)
    requires Shaped(c) && |c.branches| > 0 && j <= |key| && HasKey(Entries(c), key[j..])
    ensures Follows(c, key, j) && j + Depth(c) <= |key|
    ensures Shaped(Bottom(c)) && HasKey(Entries(Bottom(c)), key[j + Depth(c)..])
    decreases c
  {
    if Collapsible(c) {
      var b := c.branches[0];
      var q := key[j..];
      KeyBranch(c, q);
      assert c.branches == [b];
      ChildHasKey(c, q);
      assert q[1..] == key[j + 1..];
      StoredFollows(c.children[b], key, j + 1);
    } else {
      assert key[j + Depth(c)..] == key[j..];
    }
  }

  /** In an unsquashed trie the descent along a chain of collapsible nodes
      picks up no neighbours and arrives at the end of the chain `Depth`
      bytes further on. */
  lemma {:induction false} ChainDescend<V>(c: Node<V>, key: Key, j: nat, lt: Option<Node<V>>, gt: Option<Node<V>>)
      returns (e: Node<V>, k: nat)
    requires Shaped(c) && UnitSteps(c) && |c.branches| > 0 && j <= |key|
    requires Follows(c, key, j) && Candidate(lt) && Candidate(gt)
    ensures e == Bottom(c) && k == j + Depth(c) && k <= |key|
    ensures Shaped(e) && UnitSteps(e) && |e.branches| > 0
    ensures Descend(c, key, j, lt, gt) == Descend(e, key, k, lt, gt)
    decreases c
  {
    if Collapsible(c) {
      var d := c.children[c.branches[0]];
      ChainStep(c, key, j, lt, gt);
      e, k := ChainDescend(d, key, j + 1, lt, gt);
      assert Descend(c, key, j, lt, gt) == Descend(e, key, k, lt, gt);
    } else {
      e, k := c, j;
      assert Descend(c, key, j, lt, gt) == Descend(e, key, k, lt, gt);
    }
    assert Descend(c, key, j, lt, gt) == Descend(e, key, k, lt, gt);
    BottomUnit(c);
  }

  lemma ChainStep<V>(c: Node<V>, key: Key, j: nat, lt: Option<Node<V>>, gt: Option<Node<V>>)
    requires Shaped(c) && UnitSteps(c) && Collapsible(c) && j <= |key|
    requires Follows(c, key, j) && Candidate(lt) && Candidate(gt)
    ensures var d := c.children[c.branches[0]];
      && Shaped(d) && UnitSteps(d) && |d.branches| > 0 && Follows(d, key, j + 1) && j < |key|
      && Descend(c, key, j, lt, gt) == Descend(d, key, j + 1, lt, gt)
  {
    var b := c.branches[0];
    assert c.branches == [b];
    LoneBranch(b);
    var d := c.children[b];
    var lt', gt' := DescendStep(c, key, j, lt, gt, d, j + 1);
    assert lt' == lt && gt' == gt;
  }

  /** The neighbour candidates picked up at a node and at its compressed
      counterpart resolve alike. */
  lemma TwinNeighbors<V>(n: Node<V>, s: Node<V>, q: Key, ltu: Option<Node<V>>, gtu: Option<Node<V>>, lts: Option<Node<V>>, gts: Option<Node<V>>)
    requires Shaped(n) && |n.branches| > 0
    requires s.children == Squash(n).children && s.branches == n.branches
    requires Twin(ltu, lts) && Twin(gtu, gts)
    ensures Shaped(s)
    ensures Twin(Lower(n, q, ltu), Lower(s, q, lts)) && Twin(Upper(n, q, gtu), Upper(s, q, gts))
  {
    SquashShaped(n);
    assert Shaped(s);
    TwinLower(n, s, q, ltu, lts);
    TwinUpper(n, s, q, gtu, gts);
  }

  lemma TwinLower<V>(n: Node<V>, s: Node<V>, q: Key, ltu: Option<Node<V>>, lts: Option<Node<V>>)
    requires Shaped(n) && |n.branches| > 0 && Shaped(s)
    requires s.children == Squash(n).children && s.branches == n.branches && Twin(ltu, lts)
    ensures Twin(Lower(n, q, ltu), Lower(s, q, lts))
  {
    var bs := n.branches;
    var nb := NeighborBranches(bs, BranchOf(q));
    if nb.lt >= 0 {
      TwinChild(n, s, bs[nb.lt]);
      assert Lower(n, q, ltu) == Some(n.children[bs[nb.lt]]);
      assert Lower(s, q, lts) == Some(s.children[bs[nb.lt]]);
    }
  }

  lemma TwinUpper<V>(n: Node<V>, s: Node<V>, q: Key, gtu: Option<Node<V>>, gts: Option<Node<V>>)
    requires Shaped(n) && |n.branches| > 0 && Shaped(s)
    requires s.children == Squash(n).children && s.branches == n.branches && Twin(gtu, gts)
    ensures Twin(Upper(n, q, gtu), Upper(s, q, gts))
  {
    var bs := n.branches;
    var nb := NeighborBranches(bs, BranchOf(q));
    if nb.rt >= 0 {
      TwinChild(n, s, bs[nb.rt]);
      assert Upper(n, q, gtu) == Some(n.children[bs[nb.rt]]);
      assert Upper(s, q, gts) == Some(s.children[bs[nb.rt]]);
    }
  }

  /** A child and its compressed counterpart have the same end leaves. */
  lemma TwinChild<V>(n: Node<V>, s: Node<V>, b: int)
    requires Shaped(n) && s.children == Squash(n).children && b in n.children
    ensures b in s.children && Twin(Some(n.children[b]), Some(s.children[b]))
  {
    ChildrenShaped(n);
    SquashChildEnds(n.children[b]);
  }

  /** The descent for a stored key through a compressed node (any node with
      the compressed children and the original branches) resolves to what
      the descent through the original node resolves to. */
  lemma {:induction false} SquashedDescend<V>(n: Node<V>, s: Node<V>, key: Key, i: nat,
      ltu: Option<Node<V>>, gtu: Option<Node<V>>, lts: Option<Node<V>>, gts: Option<Node<V>>)
    requires Shaped(n) && UnitSteps(n) && |n.branches| > 0 && i <= |key|
    requires s.children == Squash(n).children && s.branches == n.branches
    requires HasKey(Entries(n), key[i..]) && Twin(ltu, lts) && Twin(gtu, gts)
    ensures Shaped(s) && Candidate(ltu) && Candidate(gtu) && Candidate(lts) && Candidate(gts)
    ensures Resolve(Descend(s, key, i, lts, gts)) == Resolve(Descend(n, key, i, ltu, gtu))
    decreases |key| - i
  {
    if i == |key| {
      KeyBranch(n, key[i..]);
      SquashedLeaf(n, s, key, i, ltu, gtu, lts, gts);
    } else {
      var e, sc, k, ltu', gtu', lts', gts' := SquashedStep(n, s, key, i, ltu, gtu, lts, gts);
      SquashedDescend(e, sc, key, k, ltu', gtu', lts', gts');
    }
  }

  /** One byte of both descents: the original one runs down the chain the
      key selects, the compressed one jumps to its compressed end; both
      arrive `k` bytes into the key with candidates that resolve alike. */
  lemma {:induction false} SquashedStep<V>(n: Node<V>, s: Node<V>, key: Key, i: nat,
      ltu: Option<Node<V>>, gtu: Option<Node<V>>, lts: Option<Node<V>>, gts: Option<Node<V>>)
      returns (e: Node<V>, sc: Node<V>, k: nat,
        ltu': Option<Node<V>>, gtu': Option<Node<V>>, lts': Option<Node<V>>, gts': Option<Node<V>>)
    requires Shaped(n) && UnitSteps(n) && |n.branches| > 0 && i < |key|
    requires s.children == Squash(n).children && s.branches == n.branches
    requires HasKey(Entries(n), key[i..]) && Twin(ltu, lts) && Twin(gtu, gts)
    ensures Shaped(s) && Candidate(ltu) && Candidate(gtu) && Candidate(lts) && Candidate(gts)
    ensures Shaped(e) && UnitSteps(e) && |e.branches| > 0 && i < k <= |key|
    ensures sc.children == Squash(e).children && sc.branches == e.branches && Shaped(sc) && |sc.branches| > 0
    ensures HasKey(Entries(e), key[k..]) && Twin(ltu', lts') && Twin(gtu', gts')
    ensures Descend(n, key, i, ltu, gtu) == Descend(e, key, k, ltu', gtu')
    ensures Descend(s, key, i, lts, gts) == Descend(sc, key, k, lts', gts')
  {
    TwinNeighbors(n, s, key[i..], ltu, gtu, lts, gts);
    var c;
    c, e, k := OriginalStep(n, key, i, ltu, gtu);
    ltu', gtu' := Lower(n, key[i..], ltu), Upper(n, key[i..], gtu);
    sc := CompressedChild(n, s, key[i] as int, c);
    lts', gts' := DescendStep(s, key, i, lts, gts, sc, k);
  }

  /** The key is used up: both descents end on the same leaf. */
  lemma SquashedLeaf<V>(n: Node<V>, s: Node<V>, key: Key, i: nat,
      ltu: Option<Node<V>>, gtu: Option<Node<V>>, lts: Option<Node<V>>, gts: Option<Node<V>>)
    requires Shaped(n) && |n.branches| > 0 && i == |key|
    requires s.children == Squash(n).children && s.branches == n.branches
    requires LeafBranch in n.children && Twin(ltu, lts) && Twin(gtu, gts)
    ensures Shaped(s) && Candidate(ltu) && Candidate(gtu) && Candidate(lts) && Candidate(gts)
    ensures Resolve(Descend(s, key, i, lts, gts)) == Resolve(Descend(n, key, i, ltu, gtu))
  {
    var q := key[i..];
    TwinNeighbors(n, s, q, ltu, gtu, lts, gts);
    var leaf := n.children[LeafBranch];
    SquashChildShaped(leaf);
    assert s.children[LeafBranch] == leaf;
    assert Descend(n, key, i, ltu, gtu) == Found(Lower(n, q, ltu), Some(leaf), Upper(n, q, gtu));
    assert Descend(s, key, i, lts, gts) == Found(Lower(s, q, lts), Some(leaf), Upper(s, q, gts));
    ResolveTwins(Lower(n, q, ltu), Upper(n, q, gtu), Some(leaf), Lower(s, q, lts), Upper(s, q, gts));
  }

  /** In the original trie the descent takes the byte branch and runs down
      its chain to `e`, `k` bytes into the key. */
  lemma {:induction false} OriginalStep<V>(n: Node<V>, key: Key, i: nat, lt: Option<Node<V>>, gt: Option<Node<V>>)
      returns (c: Node<V>, e: Node<V>, k: nat)
    requires Shaped(n) && UnitSteps(n) && |n.branches| > 0 && i < |key|
    requires HasKey(Entries(n), key[i..]) && Candidate(lt) && Candidate(gt)
    ensures key[i] as int in n.children && c == n.children[key[i] as int] && Shaped(c)
    ensures e == Bottom(c) && k == i + 1 + Depth(c) && k <= |key|
    ensures Shaped(e) && UnitSteps(e) && |e.branches| > 0 && HasKey(Entries(e), key[k..])
    ensures Candidate(Lower(n, key[i..], lt)) && Candidate(Upper(n, key[i..], gt))
    ensures Descend(n, key, i, lt, gt) == Descend(e, key, k, Lower(n, key[i..], lt), Upper(n, key[i..], gt))
  {
    var e0, k0;
    c, e0, k0 := StoredChild(n, key, i);
    var lt', gt' := DescendStep(n, key, i, lt, gt, c, i + 1);
    e, k := ChainDescend(c, key, i + 1, lt', gt');
    assert e == e0 && k == k0;
  }

  /** A stored key continues below the child of its next byte, along that
      child's chain. */
  lemma {:induction false} StoredChild<V>(n: Node<V>, key: Key, i: nat) returns (c: Node<V>, e: Node<V>, k: nat)
    requires Shaped(n) && UnitSteps(n) && |n.branches| > 0 && i < |key|
    requires HasKey(Entries(n), key[i..])
    ensures key[i] as int in n.children && c == n.children[key[i] as int]
    ensures Shaped(c) && UnitSteps(c) && |c.branches| > 0 && c.step == 1
    ensures Follows(c, key, i + 1) && i + 1 + Depth(c) <= |key|
    ensures e == Bottom(c) && k == i + 1 + Depth(c)
    ensures Shaped(e) && HasKey(Entries(e), key[k..])
  {
    var q := key[i..];
    KeyBranch(n, q);
    assert BranchOf(q) == key[i] as int;
    c := n.children[key[i] as int];
    ChildHasKey(n, q);
    assert q[1..] == key[i + 1..];
    StoredFollows(c, key, i + 1);
    e, k := Bottom(c), i + 1 + Depth(c);
  }

  /** In the compressed trie the byte branch holds the compressed end of
      the chain, one step per byte of the chain. */
  lemma CompressedChild<V>(n: Node<V>, s: Node<V>, b: int, c: Node<V>) returns (sc: Node<V>)
    requires Shaped(n) && UnitSteps(n) && b in n.children && b != LeafBranch && c == n.children[b]
    requires s.children == Squash(n).children && s.branches == n.branches
    ensures Shaped(s) && Shaped(c) && Shaped(Bottom(c))
    ensures b in s.children && s.children[b] == sc && sc.step == 1 + Depth(c)
    ensures sc.children == Squash(Bottom(c)).children && sc.branches == Bottom(c).branches
  {
    SquashShaped(n);
    assert Shaped(s);
    CompressedStep(n, b);
    SquashChildCollapses(c);
    sc := SquashChild(c);
  }

  // ---- what the compressed search promises ----

  /** For every key stored in an unsquashed trie, `Search` on the
      compressed trie returns exactly what it returns on the original: the
      exact match and both neighbours. */
  lemma SearchSquashed<V>(t: Node<V>, k: Key)
    requires Shaped(t) && UnitSteps(t) && |t.branches| > 0 && HasKey(Entries(t), k)
    ensures Shaped(Squash(t)) && |Squash(t).branches| > 0
    ensures Search(Squash(t), k) == Search(t, k)
  {
    SquashShaped(t);
    assert k[0..] == k;
    SquashedDescend(t, Squash(t), k, 0, None, None, None, None);
  }

  /** The trie `New` builds from the single key "ab" with value 7. */
  function SkipExample(): Node<int>
  {
    var b := Node(map[LeafBranch := NewLeaf(7, false, false)], [LeafBranch], 1, None, false, false);
    var a := Node(map[98 := b], [98], 1, None, false, false);
    Node(map[97 := a], [97], 1, None, false, false)
  }

  lemma NewSkipExample()
    ensures New([[97, 98]], Slice([7])) == Ok(SkipExample())
  {
    var leaf := NewLeaf(7, false, false);
    var b := Node(map[LeafBranch := leaf], [LeafBranch], 1, None, false, false);
    var a := Node(map[98 := b], [98], 1, None, false, false);
    assert Chain([], leaf) == b;
    assert [98][1..] == [];
    assert Chain([98], leaf) == a;
    assert [97, 98][1..] == [98];
    var root: Node<int> := NewInner();
    assert root.children[97 := a] == map[97 := a];
    assert root.branches + [97] == [97];
    assert AddKV(NewInner(), [97, 98], 7, false, false) == Ok(SkipExample());
  }

  lemma SkipExampleShaped()
    ensures var t := SkipExample();
      && Shaped(t) && |t.branches| > 0 && 97 in t.children
      && Shaped(t.children[97]) && 98 in t.children[97].children
      && Shaped(t.children[97].children[98])
  {
    NewSkipExample();
    NewBuilds([[97, 98]], [7]);
    ChildShaped(SkipExample(), 97);
  }

  /** Without squashing, "ac" is not found: the trie stores only "ab". */
  lemma SkipExamplePlain()
    ensures Shaped(SkipExample()) && |SkipExample().branches| > 0
    ensures Search(SkipExample(), [97, 99]).eq == None
  {
    SkipExampleShaped();
    var t := SkipExample();
    var key: Key := [97, 99];
    var a := t.children[97];
    LoneBranch(97);
    assert Descend(t, key, 0, None, None) == Descend(a, key, 1, None, None);
    assert 99 !in a.children;
  }

  /** Squashing the lower two nodes of the example changes nothing. */
  lemma SquashExampleBelow()
    ensures var b := SkipExample().children[97].children[98];
      Shaped(b) && SquashChild(b) == b
  {
    SkipExampleShaped();
    var b := SkipExample().children[97].children[98];
    var leaf := b.children[LeafBranch];
    assert Squash(leaf) == leaf;
    assert SquashChild(leaf) == leaf;
    assert Squash(b) == b;
  }

  /** `Squash` folds the single-branch node for "a" into the node for "ab",
      which now consumes two bytes. */
  lemma SquashExample()
    ensures Squash(SkipExample()) == SkipExample().(children := map[97 := SkipExample().children[97].children[98].(step := 2)])
  {
    SkipExampleShaped();
    SquashExampleBelow();
    var t := SkipExample();
    var b := t.children[97].children[98];
    assert Squash(t.children[97]) == t.children[97];
    assert SquashChild(t.children[97]) == b.(step := 2);
  }

  /** After squashing, the search for "ac" jumps over its second byte and
      lands on the leaf of "ab". */
  lemma SkipExampleSquashed()
    ensures Shaped(Squash(SkipExample())) && |Squash(SkipExample()).branches| > 0
    ensures Search(Squash(SkipExample()), [97, 99]).eq == Some(7)
  {
    SkipExampleShaped();
    var t := SkipExample();
    SquashShaped(t);
    SquashExample();
    var s := Squash(t);
    var key: Key := [97, 99];
    var c := s.children[97];
    ChildShaped(s, 97);
    LoneBranch(97);
    LoneBranch(LeafBranch);
    assert c.step == 2;
    assert Descend(s, key, 0, None, None) == Descend(c, key, 2, None, None);
    assert Descend(c, key, 2, None, None).eq == Some(c.children[LeafBranch]);
  }

  /** The compressed search does not check the bytes it skips: with the
      single key "ab", the query "ac" matches on the compressed trie and
      not on the original. So `Squash` is invisible only to searches for
      stored keys (`SearchSquashed`). */
  lemma SquashSkipsBytes()
    ensures New([[97, 98]], Slice([7])) == Ok(SkipExample())
    ensures Shaped(SkipExample()) && |SkipExample().branches| > 0
    ensures Search(SkipExample(), [97, 99]).eq == None
    ensures Shaped(Squash(SkipExample())) && |Squash(SkipExample()).branches| > 0
    ensures Search(Squash(SkipExample()), [97, 99]).eq == Some(7)
  {
    NewSkipExample();
    SkipExamplePlain();
    SkipExampleSquashed();
  }
}
