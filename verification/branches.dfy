/** Operations on one node's branch list: the neighbour scan used by the
    search, and the binary-search removal used by the range pruning. */
module Branches {

  /** Strictly ascending, hence duplicate-free, branch identifiers. */
  ghost predicate Ascending(bs: seq<int>)
  {
    forall i, j :: 0 <= i < j < |bs| ==> bs[i] < bs[j]
  }

  ghost function Elems(bs: seq<int>): set<int>
  {
    set b | b in bs
  }

  /** The pair of indices the neighbour scan reports; -1 stands for "none". */
  datatype Neighbors = Neighbors(lt: int, rt: int)

  /** Index at which the linear scan over `bs` stops: the first branch
      that is at least `br`, or |bs| when the scan runs off the end. */
  function FirstAtLeast(bs: seq<int>, br: int): (i: nat)
    ensures i <= |bs|
    ensures forall j :: 0 <= j < i ==> bs[j] < br
    ensures i < |bs| ==> bs[i] >= br
  {
    if |bs| == 0 then 0
    else if bs[0] >= br then 0
    else 1 + FirstAtLeast(bs[1..], br)
  }

  /** The neighbour scan. An empty list yields (0, 0); otherwise the scan
      stops at the first branch that is at least `br`. An exact match
      reports the entries on either side of it; a larger branch is itself
      the right neighbour; running off the end leaves no right neighbour. */
  function NeighborBranches(bs: seq<int>, br: int): (r: Neighbors)
    ensures |bs| == 0 ==> r == Neighbors(0, 0)
    ensures |bs| > 0 ==> -1 <= r.lt < |bs| && -1 <= r.rt < |bs|
    ensures |bs| > 0 && r.lt >= 0 ==> bs[r.lt] < br
  {
    if |bs| == 0 then Neighbors(0, 0)
    else
      var i := FirstAtLeast(bs, br);
      if i == |bs| then Neighbors(|bs| - 1, -1)
      else if bs[i] == br then Neighbors(i - 1, if i + 1 == |bs| then -1 else i + 1)
      else Neighbors(i - 1, i)
  }

  /** On a non-empty ascending list the scan reports the nearest branch
      strictly below `br` and the nearest branch strictly above it, never
      `br` itself. */
  lemma NeighborBranchesAscending(bs: seq<int>, br: int)
    requires Ascending(bs) && |bs| > 0
    ensures var r := NeighborBranches(bs, br);
      && (r.lt >= 0 ==> bs[r.lt] < br && forall j :: r.lt < j < |bs| ==> bs[j] >= br)
      && (r.lt == -1 ==> forall j :: 0 <= j < |bs| ==> bs[j] >= br)
      && (r.rt >= 0 ==> bs[r.rt] > br && forall j :: 0 <= j < r.rt ==> bs[j] <= br)
      && (r.rt == -1 ==> forall j :: 0 <= j < |bs| ==> bs[j] <= br)
  {
    var i := FirstAtLeast(bs, br);
    if i < |bs| && bs[i] == br && i + 1 < |bs| {
      assert bs[i + 1] > bs[i];
    }
  }

  /** The neighbour indices cut an ascending list into the branches below
      `br`, `br` itself when present, and the branches above it. */
  lemma NeighborSplit(bs: seq<int>, br: int) returns (a: nat, z: nat)
    requires Ascending(bs) && |bs| > 0
    ensures var r := NeighborBranches(bs, br);
      a == r.lt + 1 && z == (if r.rt >= 0 then r.rt else |bs|)
    ensures a <= z <= |bs|
    ensures forall j :: 0 <= j < a ==> bs[j] < br
    ensures forall j :: z <= j < |bs| ==> bs[j] > br
    ensures bs[a..z] == if br in bs then [br] else []
  {
    var i := FirstAtLeast(bs, br);
    if i == |bs| {
      a, z := |bs|, |bs|;
      assert br !in bs by {
        forall j | 0 <= j < |bs| ensures bs[j] != br { assert bs[j] < br; }
      }
    } else if bs[i] == br {
      a, z := i, i + 1;
      forall j | z <= j < |bs| ensures bs[j] > br { assert bs[i] < bs[j]; }
      assert bs[a..z] == [bs[i]];
    } else {
      a, z := i, i;
      forall j | i <= j < |bs| ensures bs[j] > br {
        if j > i { assert bs[i] < bs[j]; }
      }
      assert br !in bs by {
        forall j | 0 <= j < |bs| ensures bs[j] != br {
          if j < i { assert bs[j] < br; } else { assert bs[j] > br; }
        }
      }
    }
  }

  /** Go's `sort.Search(n, f)` with `f(i) = bs[i] >= br`: the bisection
      over the half-open window [lo, hi). */
  function SortSearch(bs: seq<int>, br: int, lo: nat, hi: nat): (i: nat)
    requires lo <= hi <= |bs|
    ensures lo <= i <= hi
    decreases hi - lo
  {
    if lo < hi then
      var h := (lo + hi) / 2;
      if !(bs[h] >= br) then SortSearch(bs, br, h + 1, hi) else SortSearch(bs, br, lo, h)
    else lo
  }

  /** On an ascending list the bisection finds the same index as the
      linear scan: the first branch that is at least `br`. */
  lemma {:induction false} SortSearchIsFirstAtLeast(bs: seq<int>, br: int, lo: nat, hi: nat)
    requires Ascending(bs) && lo <= hi <= |bs|
    requires forall j :: 0 <= j < lo ==> bs[j] < br
    requires forall j :: hi <= j < |bs| ==> bs[j] >= br
    ensures SortSearch(bs, br, lo, hi) == FirstAtLeast(bs, br)
    decreases hi - lo
  {
    var f := FirstAtLeast(bs, br);
    if lo < hi {
      var h := (lo + hi) / 2;
      if !(bs[h] >= br) {
        assert forall j :: 0 <= j <= h ==> bs[j] < br by {
          forall j | 0 <= j <= h ensures bs[j] < br {
            if j < h { assert bs[j] < bs[h]; }
          }
        }
        SortSearchIsFirstAtLeast(bs, br, h + 1, hi);
      } else {
        assert forall j :: h <= j < |bs| ==> bs[j] >= br by {
          forall j | h <= j < |bs| ensures bs[j] >= br {
            if j > h { assert bs[h] < bs[j]; }
          }
        }
        SortSearchIsFirstAtLeast(bs, br, lo, h);
      }
    }
  }

  /** `removeBranch`: delete `br` where the bisection finds it; a list in
      which the bisection does not land on `br` is returned unchanged. */
  function RemoveBranch(bs: seq<int>, br: int): (r: seq<int>)
    ensures br !in bs ==> r == bs
    ensures Elems(r) <= Elems(bs)
    ensures |r| == |bs| || |r| == |bs| - 1
  {
    var idx := SortSearch(bs, br, 0, |bs|);
    if idx < |bs| && bs[idx] == br then
      assert forall x :: x in bs[..idx] + bs[idx + 1..] ==> x in bs;
      bs[..idx] + bs[idx + 1..]
    else bs
  }

  /** Deleting one position of an ascending list keeps it ascending and
      removes exactly the entry at that position. */
  lemma DeleteAtAscending(bs: seq<int>, idx: nat)
    requires Ascending(bs) && idx < |bs|
    ensures var r := bs[..idx] + bs[idx + 1..];
      && Ascending(r)
      && Elems(r) == Elems(bs) - {bs[idx]}
  {
    var r := bs[..idx] + bs[idx + 1..];
    assert forall j :: 0 <= j < |r| ==> r[j] == (if j < idx then bs[j] else bs[j + 1]);
    forall x | x in bs && x != bs[idx] ensures x in r {
      var k :| 0 <= k < |bs| && bs[k] == x;
      if k < idx { assert r[k] == x; } else { assert r[k - 1] == x; }
    }
    forall x | x in r ensures x != bs[idx] {
      var k :| 0 <= k < |r| && r[k] == x;
      if k < idx { assert bs[k] < bs[idx]; } else { assert bs[idx] < bs[k + 1]; }
    }
  }

  /** On an ascending list `removeBranch` deletes exactly the entry `br`,
      keeps every other entry and keeps the list ascending. */
  lemma RemoveBranchAscending(bs: seq<int>, br: int)
    requires Ascending(bs)
    ensures var r := RemoveBranch(bs, br);
      && Ascending(r)
      && Elems(r) == Elems(bs) - {br}
      && |r| == |bs| - (if br in bs then 1 else 0)
  {
    var idx := FirstAtLeast(bs, br);
    SortSearchIsFirstAtLeast(bs, br, 0, |bs|);
    if idx < |bs| && bs[idx] == br {
      RemoveFound(bs, br, idx);
    } else {
      MissedAbsent(bs, br, idx);
      assert RemoveBranch(bs, br) == bs;
      assert Elems(bs) - {br} == Elems(bs);
    }
  }

  lemma RemoveFound(bs: seq<int>, br: int, idx: nat)
    requires Ascending(bs) && idx < |bs| && bs[idx] == br && SortSearch(bs, br, 0, |bs|) == idx
    ensures var r := RemoveBranch(bs, br);
      && Ascending(r)
      && Elems(r) == Elems(bs) - {br}
      && |r| == |bs| - 1
  {
    assert RemoveBranch(bs, br) == bs[..idx] + bs[idx + 1..];
    DeleteAtAscending(bs, idx);
  }

  /** Where the scan stops on an ascending list without finding `br`,
      `br` is not in the list. */
  lemma MissedAbsent(bs: seq<int>, br: int, idx: nat)
    requires Ascending(bs) && idx <= |bs|
    requires forall j :: 0 <= j < idx ==> bs[j] < br
    requires idx < |bs| ==> bs[idx] > br
    ensures br !in bs
  {
    forall k | 0 <= k < |bs| ensures bs[k] != br {
      if idx < k { assert bs[idx] < bs[k]; }
    }
  }

  /** The branch-list side of pruning: walk `order` and remove, with
      `removeBranch`, each of its entries that lies in `drop`. */
  function RemoveBranches(bs: seq<int>, order: seq<int>, drop: set<int>): (r: seq<int>)
    ensures Elems(r) <= Elems(bs)
  {
    if |order| == 0 then bs
    else RemoveBranches(if order[0] in drop then RemoveBranch(bs, order[0]) else bs, order[1..], drop)
  }

  /** On an ascending list the sequential removals delete exactly the
      entries of `order` that lie in `drop`, and keep the list ascending. */
  lemma {:induction false} RemoveBranchesAscending(bs: seq<int>, order: seq<int>, drop: set<int>)
    requires Ascending(bs)
    ensures Ascending(RemoveBranches(bs, order, drop))
    ensures Elems(RemoveBranches(bs, order, drop)) == Elems(bs) - (Elems(order) * drop)
  {
    if |order| > 0 {
      var next := if order[0] in drop then RemoveBranch(bs, order[0]) else bs;
      if order[0] in drop {
        RemoveBranchAscending(bs, order[0]);
      }
      RemoveBranchesAscending(next, order[1..], drop);
      assert Elems(order) == {order[0]} + Elems(order[1..]);
    }
  }

  /** The entries of `bs` outside `drop`, in their order. */
  function Without(bs: seq<int>, drop: set<int>): (r: seq<int>)
    ensures Elems(r) == Elems(bs) - drop
    ensures Ascending(bs) ==> Ascending(r)
    ensures Ascending(bs) && |bs| > 0 && |r| > 0 ==> bs[0] <= r[0]
  {
    if |bs| == 0 then []
    else
      var rest := Without(bs[1..], drop);
      assert Elems(bs) == {bs[0]} + Elems(bs[1..]);
      assert Ascending(bs) ==> forall x :: x in Elems(bs[1..]) ==> bs[0] < x;
      assert Elems([bs[0]] + rest) == {bs[0]} + Elems(rest);
      if bs[0] in drop then rest else [bs[0]] + rest
  }

  /** The head of an ascending list is its least entry and occurs once. */
  lemma AscendingHead(a: seq<int>)
    requires Ascending(a) && |a| > 0
    ensures forall x :: x in Elems(a) ==> a[0] <= x
    ensures Elems(a) == {a[0]} + Elems(a[1..])
    ensures a[0] !in Elems(a[1..])
  {
    assert forall k :: 1 <= k < |a| ==> a[0] < a[k];
  }

  /** An ascending list is determined by its set of entries. */
  lemma {:induction false} AscendingUnique(a: seq<int>, b: seq<int>)
    requires Ascending(a) && Ascending(b) && Elems(a) == Elems(b)
    ensures a == b
  {
    assert forall k :: 0 <= k < |a| ==> a[k] in Elems(a);
    assert forall k :: 0 <= k < |b| ==> b[k] in Elems(b);
    if |a| > 0 && |b| > 0 {
      AscendingHead(a);
      AscendingHead(b);
      AscendingUnique(a[1..], b[1..]);
      assert a == [a[0]] + a[1..] && b == [b[0]] + b[1..];
    }
  }

  /** On an ascending list, removing the entries of `order` that lie in
      `drop` leaves exactly the other entries, in order; so the order in
      which they are removed does not matter. */
  lemma RemoveBranchesIsWithout(bs: seq<int>, order: seq<int>, drop: set<int>)
    requires Ascending(bs)
    ensures RemoveBranches(bs, order, drop) == Without(bs, Elems(order) * drop)
  {
    RemoveBranchesAscending(bs, order, drop);
    AscendingUnique(RemoveBranches(bs, order, drop), Without(bs, Elems(order) * drop));
  }

  /** Any two removal orders covering the same dropped entries agree. */
  lemma RemoveBranchesAnyOrder(bs: seq<int>, o1: seq<int>, o2: seq<int>, drop: set<int>)
    requires Ascending(bs) && Elems(o1) * drop == Elems(o2) * drop
    ensures RemoveBranches(bs, o1, drop) == RemoveBranches(bs, o2, drop)
  {
    RemoveBranchesIsWithout(bs, o1, drop);
    RemoveBranchesIsWithout(bs, o2, drop);
  }
}
