/** Reference definitions over a trie's ordered leaf list: the value stored
    under a key, the nearest key below and the nearest key above a query.
    The search is proved against these. */
module EntryLists {
  import opened Keys
  import opened TrieNode

  ghost predicate HasKey<V>(es: seq<Entry<V>>, k: Key)
  {
    exists i :: 0 <= i < |es| && es[i].key == k
  }

  /** Some stored key continues past `k`: `k` is a proper prefix of it. */
  ghost predicate ExtendsKey<V>(es: seq<Entry<V>>, k: Key)
  {
    exists i :: 0 <= i < |es| && ProperPrefix(k, es[i].key)
  }

  /** The value of the first entry whose key is `q`. */
  ghost function Lookup<V>(es: seq<Entry<V>>, q: Key): Option<V>
  {
    if |es| == 0 then None
    else if es[0].key == q then Some(es[0].value)
    else Lookup(es[1..], q)
  }

  /** The value of the last entry whose key is below `q`. */
  ghost function LastBelow<V>(es: seq<Entry<V>>, q: Key): Option<V>
  {
    if |es| == 0 then None
    else if Less(es[|es| - 1].key, q) then Some(es[|es| - 1].value)
    else LastBelow(es[..|es| - 1], q)
  }

  /** The value of the first entry whose key is above `q`. */
  ghost function FirstAbove<V>(es: seq<Entry<V>>, q: Key): Option<V>
  {
    if |es| == 0 then None
    else if Less(q, es[0].key) then Some(es[0].value)
    else FirstAbove(es[1..], q)
  }

  /** The entries `New` is expected to store: key i with value i, no flags. */
  ghost function Zip<V>(keys: seq<Key>, values: seq<V>): (r: seq<Entry<V>>)
    requires |keys| == |values|
    ensures |r| == |keys|
    ensures forall i :: 0 <= i < |keys| ==> r[i] == Entry(keys[i], values[i], false, false)
  {
    seq(|keys|, i requires 0 <= i < |keys| => Entry(keys[i], values[i], false, false))
  }

  // ---- splitting a list ----

  lemma {:induction false} LookupAppend<V>(a: seq<Entry<V>>, b: seq<Entry<V>>, q: Key)
    ensures Lookup(a + b, q) == if Lookup(a, q).Some? then Lookup(a, q) else Lookup(b, q)
  {
    if |a| > 0 {
      assert (a + b)[1..] == a[1..] + b;
      LookupAppend(a[1..], b, q);
    } else {
      assert a + b == b;
    }
  }

  lemma {:induction false} LastBelowAppend<V>(a: seq<Entry<V>>, b: seq<Entry<V>>, q: Key)
    ensures LastBelow(a + b, q) == if LastBelow(b, q).Some? then LastBelow(b, q) else LastBelow(a, q)
  {
    if |b| > 0 {
      assert (a + b)[..|a + b| - 1] == a + b[..|b| - 1];
      LastBelowAppend(a, b[..|b| - 1], q);
    } else {
      assert a + b == a;
    }
  }

  lemma {:induction false} FirstAboveAppend<V>(a: seq<Entry<V>>, b: seq<Entry<V>>, q: Key)
    ensures FirstAbove(a + b, q) == if FirstAbove(a, q).Some? then FirstAbove(a, q) else FirstAbove(b, q)
  {
    if |a| > 0 {
      assert (a + b)[1..] == a[1..] + b;
      FirstAboveAppend(a[1..], b, q);
    } else {
      assert a + b == b;
    }
  }

  lemma HasKeyAppend<V>(a: seq<Entry<V>>, b: seq<Entry<V>>, k: Key)
    ensures HasKey(a + b, k) <==> HasKey(a, k) || HasKey(b, k)
  {
    var es := a + b;
    if HasKey(es, k) {
      var i :| 0 <= i < |es| && es[i].key == k;
      if i >= |a| { assert b[i - |a|] == es[i]; } else { assert a[i] == es[i]; }
    }
    if HasKey(a, k) {
      var i :| 0 <= i < |a| && a[i].key == k;
      assert es[i] == a[i];
    }
    if HasKey(b, k) {
      var i :| 0 <= i < |b| && b[i].key == k;
      assert es[i + |a|] == b[i];
    }
  }

  lemma ExtendsKeyAppend<V>(a: seq<Entry<V>>, b: seq<Entry<V>>, k: Key)
    ensures ExtendsKey(a + b, k) <==> ExtendsKey(a, k) || ExtendsKey(b, k)
  {
    var es := a + b;
    if ExtendsKey(es, k) {
      var i :| 0 <= i < |es| && ProperPrefix(k, es[i].key);
      if i >= |a| { assert b[i - |a|] == es[i]; } else { assert a[i] == es[i]; }
    }
    if ExtendsKey(a, k) {
      var i :| 0 <= i < |a| && ProperPrefix(k, a[i].key);
      assert es[i] == a[i];
    }
    if ExtendsKey(b, k) {
      var i :| 0 <= i < |b| && ProperPrefix(k, b[i].key);
      assert es[i + |a|] == b[i];
    }
  }

  // ---- lists on one side of the query ----

  lemma {:induction false} LookupAbsent<V>(es: seq<Entry<V>>, q: Key)
    requires forall i :: 0 <= i < |es| ==> es[i].key != q
    ensures Lookup(es, q) == None
  {
    if |es| > 0 { LookupAbsent(es[1..], q); }
  }

  lemma {:induction false} LookupPresent<V>(es: seq<Entry<V>>, q: Key)
    ensures Lookup(es, q).Some? <==> HasKey(es, q)
  {
    if |es| > 0 {
      LookupPresent(es[1..], q);
      if HasKey(es, q) && es[0].key != q {
        var i :| 0 <= i < |es| && es[i].key == q;
        assert es[1..][i - 1] == es[i];
      }
      if HasKey(es[1..], q) {
        var i :| 0 <= i < |es[1..]| && es[1..][i].key == q;
        assert es[i + 1] == es[1..][i];
      }
    }
  }

  lemma {:induction false} LastBelowNone<V>(es: seq<Entry<V>>, q: Key)
    requires forall i :: 0 <= i < |es| ==> !Less(es[i].key, q)
    ensures LastBelow(es, q) == None
  {
    if |es| > 0 { LastBelowNone(es[..|es| - 1], q); }
  }

  lemma {:induction false} FirstAboveNone<V>(es: seq<Entry<V>>, q: Key)
    requires forall i :: 0 <= i < |es| ==> !Less(q, es[i].key)
    ensures FirstAbove(es, q) == None
  {
    if |es| > 0 { FirstAboveNone(es[1..], q); }
  }

  /** Keys that hang under other branches than the first byte of `k` are
      neither `k` nor an extension of it. */
  lemma ForeignBranch<V>(es: seq<Entry<V>>, bs: seq<int>, k: Key)
    requires KeysUnder(es, bs) && |k| > 0 && k[0] !in bs
    ensures !HasKey(es, k) && !ExtendsKey(es, k)
  {
    forall i | 0 <= i < |es| ensures !ProperPrefix(k, es[i].key) {
      if |es[i].key| > |k| {
        assert es[i].key[..|k|][0] == es[i].key[0];
      }
    }
  }

  // ---- a branch byte in front of every key ----

  lemma {:induction false} PrefixedQueries<V>(x: Byte, es: seq<Entry<V>>, q: Key)
    ensures Lookup(Prefixed(x, es), [x] + q) == Lookup(es, q)
    ensures LastBelow(Prefixed(x, es), [x] + q) == LastBelow(es, q)
    ensures FirstAbove(Prefixed(x, es), [x] + q) == FirstAbove(es, q)
  {
    var p := Prefixed(x, es);
    if |es| > 0 {
      assert p[1..] == Prefixed(x, es[1..]);
      assert p[..|p| - 1] == Prefixed(x, es[..|es| - 1]);
      PrefixedQueries(x, es[1..], q);
      PrefixedQueries(x, es[..|es| - 1], q);
      ConsLess(x, es[|es| - 1].key, q);
      ConsLess(x, q, es[0].key);
      assert ([x] + es[0].key == [x] + q) <==> es[0].key == q by {
        if [x] + es[0].key == [x] + q {
          assert ([x] + es[0].key)[1..] == es[0].key && ([x] + q)[1..] == q;
        }
      }
    }
  }

  lemma PrefixedHasKey<V>(x: Byte, es: seq<Entry<V>>, k: Key)
    ensures HasKey(Prefixed(x, es), [x] + k) <==> HasKey(es, k)
  {
    var p := Prefixed(x, es);
    var xk := [x] + k;
    if HasKey(p, xk) {
      var i :| 0 <= i < |p| && p[i].key == xk;
      assert p[i].key == [x] + es[i].key;
      assert es[i].key == p[i].key[1..] == xk[1..] == k;
    }
    if HasKey(es, k) {
      var i :| 0 <= i < |es| && es[i].key == k;
      assert p[i].key == xk;
    }
  }

  lemma PrefixedExtendsKey<V>(x: Byte, es: seq<Entry<V>>, k: Key)
    ensures ExtendsKey(Prefixed(x, es), [x] + k) <==> ExtendsKey(es, k)
  {
    var p := Prefixed(x, es);
    var xk := [x] + k;
    if ExtendsKey(p, xk) {
      var i :| 0 <= i < |p| && ProperPrefix(xk, p[i].key);
      ConsProperPrefix(x, k, es[i].key);
    }
    if ExtendsKey(es, k) {
      var i :| 0 <= i < |es| && ProperPrefix(k, es[i].key);
      ConsProperPrefix(x, k, es[i].key);
      assert ProperPrefix(xk, p[i].key);
    }
  }

  lemma PrefixedAppend<V>(x: int, a: seq<Entry<V>>, b: seq<Entry<V>>)
    ensures Prefixed(x, a + b) == Prefixed(x, a) + Prefixed(x, b)
  {
  }

  // ---- sorted lists: the reference answers are the nearest keys ----

  /** In a sorted list the last entry below `q` is the entry of the
      greatest key below `q`. */
  lemma SortedLastBelow<V>(es: seq<Entry<V>>, q: Key, i: nat)
    requires SortedKeys(es) && i < |es| && Less(es[i].key, q)
    requires i + 1 == |es| || !Less(es[i + 1].key, q)
    ensures LastBelow(es, q) == Some(es[i].value)
  {
    var tail := es[i + 1..];
    forall j | 0 <= j < |tail| ensures !Less(tail[j].key, q) {
      assert tail[j] == es[i + 1 + j];
      if j > 0 && Less(tail[j].key, q) {
        LessTransitive(es[i + 1].key, es[i + 1 + j].key, q);
      }
    }
    LastBelowNone(tail, q);
    assert es == es[..i + 1] + tail;
    LastBelowAppend(es[..i + 1], tail, q);
  }

  /** In a sorted list the first entry above `q` is the entry of the
      smallest key above `q`. */
  lemma SortedFirstAbove<V>(es: seq<Entry<V>>, q: Key, i: nat)
    requires SortedKeys(es) && i < |es| && Less(q, es[i].key)
    requires i == 0 || !Less(q, es[i - 1].key)
    ensures FirstAbove(es, q) == Some(es[i].value)
  {
    var head := es[..i];
    forall j | 0 <= j < |head| ensures !Less(q, head[j].key) {
      assert head[j] == es[j];
      if j < i - 1 && Less(q, head[j].key) {
        LessTransitive(q, es[j].key, es[i - 1].key);
      }
    }
    FirstAboveNone(head, q);
    assert es == head + es[i..];
    FirstAboveAppend(head, es[i..], q);
  }

  lemma {:induction false} LastBelowSomeIff<V>(es: seq<Entry<V>>, q: Key)
    ensures LastBelow(es, q).Some? <==> exists i :: 0 <= i < |es| && Less(es[i].key, q)
  {
    if |es| > 0 {
      var init := es[..|es| - 1];
      LastBelowSomeIff(init, q);
      if exists i :: 0 <= i < |es| && Less(es[i].key, q) {
        var i :| 0 <= i < |es| && Less(es[i].key, q);
        if i < |es| - 1 { assert init[i] == es[i]; }
      }
      if exists i :: 0 <= i < |init| && Less(init[i].key, q) {
        var i :| 0 <= i < |init| && Less(init[i].key, q);
        assert es[i] == init[i];
      }
    }
  }

  lemma {:induction false} FirstAboveSomeIff<V>(es: seq<Entry<V>>, q: Key)
    ensures FirstAbove(es, q).Some? <==> exists i :: 0 <= i < |es| && Less(q, es[i].key)
  {
    if |es| > 0 {
      var tail := es[1..];
      FirstAboveSomeIff(tail, q);
      if exists i :: 0 <= i < |es| && Less(q, es[i].key) {
        var i :| 0 <= i < |es| && Less(q, es[i].key);
        if i > 0 { assert tail[i - 1] == es[i]; }
      }
      if exists i :: 0 <= i < |tail| && Less(q, tail[i].key) {
        var i :| 0 <= i < |tail| && Less(q, tail[i].key);
        assert es[i + 1] == tail[i];
      }
    }
  }

  /** In a list with distinct keys the lookup finds the entry of that key. */
  lemma SortedLookup<V>(es: seq<Entry<V>>, i: nat)
    requires SortedKeys(es) && i < |es|
    ensures Lookup(es, es[i].key) == Some(es[i].value)
  {
    var head := es[..i];
    forall j | 0 <= j < |head| ensures head[j].key != es[i].key {
      assert head[j] == es[j];
      LessIrreflexive(es[i].key);
    }
    LookupAbsent(head, es[i].key);
    assert es == head + es[i..];
    LookupAppend(head, es[i..], es[i].key);
  }
}
