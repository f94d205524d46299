/** The trie node, the error kinds of the constructors, the structural
    invariants every constructed trie keeps, and the abstract view of a
    trie as the ordered list of its leaves (`Entries`). */
module TrieNode {
  import opened Keys
  import opened Branches

  datatype Option<T> = None | Some(value: T)

  /** The construction errors, kept individually distinguishable. */
  datatype TrieError =
    | DuplicateKeys
    | ValuesNotSlice
    | RangeNotMatch
    | KVLenNotMatch
    | KeyOutOfOrder

  datatype Result<T> = Ok(value: T) | Err(error: TrieError)

  /** The end-of-key sentinel branch; it sorts before every byte. */
  const LeafBranch: int := -1

  /** A trie node. `children` maps a branch identifier to the subtree under
      it and `branches` lists the identifiers in insertion order. `step` is
      the number of key bytes the edge into this node consumes. Only a leaf,
      reached through `LeafBranch`, carries a `value` and the range flags. */
  datatype Node<V> = Node(
    children: map<int, Node<V>>,
    branches: seq<int>,
    step: nat,
    value: Option<V>,
    isStartLeaf: bool,
    isEndLeaf: bool)

  /** An inner node as the constructors create it. */
  function NewInner<V>(): Node<V>
  {
    Node(map[], [], 1, None, false, false)
  }

  /** A leaf as `addKV` creates it: no children and a zero step. */
  function NewLeaf<V>(value: V, isStartLeaf: bool, isEndLeaf: bool): Node<V>
  {
    Node(map[], [], 0, Some(value), isStartLeaf, isEndLeaf)
  }

  predicate IsBranch(b: int)
  {
    b == LeafBranch || 0 <= b < 256
  }

  ghost predicate Distinct(bs: seq<int>)
  {
    forall i, j :: 0 <= i < j < |bs| ==> bs[i] != bs[j]
  }

  ghost predicate IsLeaf<V>(n: Node<V>)
  {
    n.children == map[] && n.branches == [] && n.value.Some?
  }

  /** The shape every constructed trie has: the children are exactly the
      listed branches, listed once each; the sentinel child is a valued
      leaf; every byte child is an inner node with at least one branch.
      The node itself (the root) may have no branches at all. */
  ghost predicate Shaped<V>(n: Node<V>)
  {
    && n.children.Keys == Elems(n.branches)
    && Distinct(n.branches)
    && (forall b :: b in n.children ==> IsBranch(b))
    && (LeafBranch in n.children ==> IsLeaf(n.children[LeafBranch]))
    && (forall b :: b in n.children && b != LeafBranch ==>
          |n.children[b].branches| > 0 && Shaped(n.children[b]))
  }

  /** Every branch list in the trie is strictly ascending. */
  ghost predicate Ordered<V>(n: Node<V>)
  {
    Ascending(n.branches) && forall b :: b in n.children ==> Ordered(n.children[b])
  }

  /** Every inner node below `n` consumes one byte: the trie is not squashed. */
  ghost predicate UnitSteps<V>(n: Node<V>)
  {
    forall b :: b in n.children && b != LeafBranch ==>
      n.children[b].step == 1 && UnitSteps(n.children[b])
  }

  /** One stored key with its value and range flags. */
  datatype Entry<V> = Entry(key: Key, value: V, isStartLeaf: bool, isEndLeaf: bool)

  /** The leaves below `n` in branch-list order, each with the key spelled by
      its path (the sentinel contributes no byte). A node without branches
      is a leaf when it has a value; otherwise it stores nothing. */
  ghost function Entries<V>(n: Node<V>): seq<Entry<V>>
    decreases n, 1
  {
    if |n.branches| == 0 then
      (if n.value.Some? then [Entry([], n.value.value, n.isStartLeaf, n.isEndLeaf)] else [])
    else BranchEntries(n, n.branches)
  }

  ghost function BranchEntries<V>(n: Node<V>, bs: seq<int>): seq<Entry<V>>
    decreases n, 0, |bs|
  {
    if |bs| == 0 then [] else Block(n, bs[0]) + BranchEntries(n, bs[1..])
  }

  /** The entries under branch `b` of `n`, keyed from `n`. */
  ghost function Block<V>(n: Node<V>, b: int): seq<Entry<V>>
    decreases n, 0, 0
  {
    if b in n.children then Prefixed(b, Entries(n.children[b])) else []
  }

  /** Puts the branch byte `b` in front of every key; the sentinel adds nothing. */
  ghost function Prefixed<V>(b: int, es: seq<Entry<V>>): (r: seq<Entry<V>>)
    ensures |r| == |es|
    ensures forall i :: 0 <= i < |es| ==>
      && r[i].value == es[i].value
      && r[i].isStartLeaf == es[i].isStartLeaf
      && r[i].isEndLeaf == es[i].isEndLeaf
      && r[i].key == (if 0 <= b < 256 then [b as Byte] + es[i].key else es[i].key)
  {
    if 0 <= b < 256 then
      seq(|es|, i requires 0 <= i < |es| => es[i].(key := [b as Byte] + es[i].key))
    else es
  }

  /** The keys of `es` all live under branches listed in `bs`. */
  ghost predicate KeysUnder<V>(es: seq<Entry<V>>, bs: seq<int>)
  {
    forall i :: 0 <= i < |es| ==>
      (|es[i].key| == 0 ==> LeafBranch in bs) && (|es[i].key| > 0 ==> es[i].key[0] in bs)
  }

  /** Keys strictly ascending along the list. */
  ghost predicate SortedKeys<V>(es: seq<Entry<V>>)
  {
    forall i, j :: 0 <= i < j < |es| ==> Less(es[i].key, es[j].key)
  }

  lemma {:induction false} BranchEntriesAppend<V>(n: Node<V>, a: seq<int>, b: seq<int>)
    ensures BranchEntries(n, a + b) == BranchEntries(n, a) + BranchEntries(n, b)
  {
    if |a| > 0 {
      assert (a + b)[1..] == a[1..] + b;
      BranchEntriesAppend(n, a[1..], b);
    } else {
      assert a + b == b;
    }
  }

  /** The entry list of one branch, as a one-element slice of the list. */
  lemma BranchEntriesSingle<V>(n: Node<V>, b: int)
    ensures BranchEntries(n, [b]) == Block(n, b)
  {
    assert [b][1..] == [];
  }

  /** A shaped node stores at least one key when it is a leaf or has branches. */
  lemma {:induction false} EntriesNonEmpty<V>(n: Node<V>)
    requires Shaped(n) && (|n.branches| > 0 || n.value.Some?)
    ensures |Entries(n)| > 0
    decreases n, 1
  {
    if |n.branches| > 0 {
      BlockNonEmpty(n, n.branches[0]);
    }
  }

  lemma {:induction false} BlockNonEmpty<V>(n: Node<V>, b: int)
    requires Shaped(n) && b in n.children
    ensures |Block(n, b)| > 0
    decreases n, 0
  {
    EntriesNonEmpty(n.children[b]);
  }

  /** Every key under branch `b` starts with `b`, or is empty under the sentinel. */
  lemma BlockKeys<V>(n: Node<V>, b: int)
    requires Shaped(n) && b in n.children
    ensures forall i :: 0 <= i < |Block(n, b)| ==>
      (b == LeafBranch ==> Block(n, b)[i].key == [])
      && (b != LeafBranch ==> |Block(n, b)[i].key| > 0 && Block(n, b)[i].key[0] == b)
  {
    if b == LeafBranch {
      assert Entries(n.children[b]) == [Entry([], n.children[b].value.value, n.children[b].isStartLeaf, n.children[b].isEndLeaf)];
    }
  }

  lemma {:induction false} BranchEntriesKeys<V>(n: Node<V>, bs: seq<int>)
    requires Shaped(n) && Elems(bs) <= n.children.Keys
    ensures KeysUnder(BranchEntries(n, bs), bs)
    decreases |bs|
  {
    if |bs| > 0 {
      BlockKeys(n, bs[0]);
      BranchEntriesKeys(n, bs[1..]);
      var a := Block(n, bs[0]);
      var rest := BranchEntries(n, bs[1..]);
      var es := a + rest;
      assert BranchEntries(n, bs) == es;
      forall i | 0 <= i < |es|
        ensures (|es[i].key| == 0 ==> LeafBranch in bs) && (|es[i].key| > 0 ==> es[i].key[0] in bs)
      {
        if i >= |a| {
          assert es[i] == rest[i - |a|];
          assert bs[1..][0..] == bs[1..];
          assert forall x :: x in bs[1..] ==> x in bs;
        }
      }
    }
  }

  /** Every key stored below a shaped node hangs under one of its branches. */
  lemma EntriesKeys<V>(n: Node<V>)
    requires Shaped(n) && |n.branches| > 0
    ensures KeysUnder(Entries(n), n.branches)
  {
    BranchEntriesKeys(n, n.branches);
  }

  lemma SortedConcat<V>(a: seq<Entry<V>>, b: seq<Entry<V>>)
    requires SortedKeys(a) && SortedKeys(b)
    requires forall i, j :: 0 <= i < |a| && 0 <= j < |b| ==> Less(a[i].key, b[j].key)
    ensures SortedKeys(a + b)
  {
    var es := a + b;
    forall i, j | 0 <= i < j < |es| ensures Less(es[i].key, es[j].key) {
      if j < |a| {
        assert es[i] == a[i] && es[j] == a[j];
      } else if i >= |a| {
        assert es[i] == b[i - |a|] && es[j] == b[j - |a|];
      } else {
        assert es[i] == a[i] && es[j] == b[j - |a|];
      }
    }
  }

  lemma PrefixedSorted<V>(b: int, es: seq<Entry<V>>)
    requires SortedKeys(es)
    ensures SortedKeys(Prefixed(b, es))
  {
    if 0 <= b < 256 {
      forall i, j | 0 <= i < j < |es| ensures Less(Prefixed(b, es)[i].key, Prefixed(b, es)[j].key) {
        ConsLess(b as Byte, es[i].key, es[j].key);
      }
    }
  }

  /** In an ordered trie the leaves appear in strictly ascending key order. */
  lemma {:induction false} EntriesSorted<V>(n: Node<V>)
    requires Shaped(n) && Ordered(n)
    ensures SortedKeys(Entries(n))
    decreases n, 1
  {
    if |n.branches| > 0 {
      BranchEntriesSorted(n, n.branches);
    }
  }

  lemma {:induction false} BranchEntriesSorted<V>(n: Node<V>, bs: seq<int>)
    requires Shaped(n) && Ordered(n)
    requires Ascending(bs) && Elems(bs) <= n.children.Keys
    ensures SortedKeys(BranchEntries(n, bs))
    decreases n, 0, |bs|
  {
    if |bs| > 0 {
      var b := bs[0];
      var c := n.children[b];
      EntriesSorted(c);
      PrefixedSorted(b, Entries(c));
      assert Ascending(bs[1..]) && Elems(bs[1..]) <= Elems(bs);
      BranchEntriesSorted(n, bs[1..]);
      BlockKeys(n, b);
      BranchEntriesKeys(n, bs[1..]);
      var a := Block(n, b);
      var rest := BranchEntries(n, bs[1..]);
      assert IsBranch(b);
      forall i, j | 0 <= i < |a| && 0 <= j < |rest| ensures Less(a[i].key, rest[j].key) {
        var k := rest[j].key;
        var m :| 0 <= m < |bs[1..]| && bs[1..][m] == k[0];
        assert bs[0] < bs[m + 1];
      }
      SortedConcat(a, rest);
    }
  }

  /** The entries of a node split around one of its branches; the keys on
      either side hang under other branches than that one. */
  lemma SplitAt<V>(n: Node<V>, p: nat)
    requires Shaped(n) && p < |n.branches|
    ensures var bs := n.branches;
      && Entries(n) == BranchEntries(n, bs[..p]) + Block(n, bs[p]) + BranchEntries(n, bs[p + 1..])
      && KeysUnder(BranchEntries(n, bs[..p]), bs[..p])
      && KeysUnder(BranchEntries(n, bs[p + 1..]), bs[p + 1..])
      && bs[p] !in bs[..p] && bs[p] !in bs[p + 1..]
  {
    var bs := n.branches;
    SplitEntries(n, p);
    assert Elems(bs[..p]) <= Elems(bs) && Elems(bs[p + 1..]) <= Elems(bs);
    BranchEntriesKeys(n, bs[..p]);
    BranchEntriesKeys(n, bs[p + 1..]);
    DistinctAt(bs, p);
  }

  lemma SplitEntries<V>(n: Node<V>, p: nat)
    requires p < |n.branches|
    ensures var bs := n.branches;
      Entries(n) == BranchEntries(n, bs[..p]) + Block(n, bs[p]) + BranchEntries(n, bs[p + 1..])
  {
    var bs := n.branches;
    assert bs == bs[..p] + ([bs[p]] + bs[p + 1..]);
    BranchEntriesAppend(n, bs[..p], [bs[p]] + bs[p + 1..]);
    BranchEntriesAppend(n, [bs[p]], bs[p + 1..]);
    BranchEntriesSingle(n, bs[p]);
  }

  lemma DistinctAt(bs: seq<int>, p: nat)
    requires Distinct(bs) && p < |bs|
    ensures bs[p] !in bs[..p] && bs[p] !in bs[p + 1..]
  {
    var a, z := bs[..p], bs[p + 1..];
    forall j | 0 <= j < |a| ensures a[j] != bs[p] {
      assert a[j] == bs[j];
    }
    forall j | 0 <= j < |z| ensures z[j] != bs[p] {
      assert z[j] == bs[p + 1 + j];
    }
  }

  /** The entries under a list of branches depend only on those children. */
  lemma {:induction false} BranchEntriesFrame<V>(n: Node<V>, m: Node<V>, bs: seq<int>)
    requires forall b :: b in bs ==>
      (b in n.children <==> b in m.children) && (b in n.children ==> n.children[b] == m.children[b])
    ensures BranchEntries(n, bs) == BranchEntries(m, bs)
  {
    if |bs| > 0 {
      BranchEntriesFrame(n, m, bs[1..]);
    }
  }

  /** `leftMost`: follow the first branch down to a node without branches;
      on a shaped node that is the leaf of the smallest stored key. */
  function LeftMost<V>(n: Node<V>): (r: Node<V>)
    requires Shaped(n)
    ensures r.branches == []
    ensures Entries(n) != [] ==> r.value == Some(Entries(n)[0].value)
    decreases n
  {
    if |n.branches| == 0 then n
    else
      var b := n.branches[0];
      BlockNonEmpty(n, b);
      assert n.branches == [b] + n.branches[1..];
      LeftMost(n.children[b])
  }

  /** `rightMost`: follow the last branch down to a node without branches;
      on a shaped node that is the leaf of the greatest stored key. */
  function RightMost<V>(n: Node<V>): (r: Node<V>)
    requires Shaped(n)
    ensures r.branches == []
    ensures Entries(n) != [] ==> r.value == Some(Entries(n)[|Entries(n)| - 1].value)
    decreases n
  {
    if |n.branches| == 0 then n
    else
      var k := |n.branches| - 1;
      var b := n.branches[k];
      BlockNonEmpty(n, b);
      assert n.branches == n.branches[..k] + [b];
      BranchEntriesAppend(n, n.branches[..k], [b]);
      BranchEntriesSingle(n, b);
      RightMost(n.children[b])
  }
}
