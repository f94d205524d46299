/** Keys of the trie: byte strings under the byte-wise lexicographic order
    in which a proper prefix sorts before every extension of it. */
module Keys {

  /** One key byte. The trie uses a byte directly as a branch identifier. */
  type Byte = b: int | 0 <= b < 256

  type Key = seq<Byte>

  /** Strict lexicographic order on keys; a proper prefix is smaller. */
  predicate Less(a: Key, b: Key)
  {
    |b| > 0 && (|a| == 0 || a[0] < b[0] || (a[0] == b[0] && Less(a[1..], b[1..])))
  }

  /** The keys are strictly ascending, as the trie constructors expect. */
  ghost predicate StrictlyAscending(keys: seq<Key>)
  {
    forall i, j :: 0 <= i < j < |keys| ==> Less(keys[i], keys[j])
  }

  /** `p` is a proper prefix of `k`. */
  ghost predicate ProperPrefix(p: Key, k: Key)
  {
    |p| < |k| && k[..|p|] == p
  }

  lemma {:induction false} LessIrreflexive(a: Key)
    ensures !Less(a, a)
  {
    if |a| > 0 {
      LessIrreflexive(a[1..]);
    }
  }

  lemma {:induction false} LessTransitive(a: Key, b: Key, c: Key)
    requires Less(a, b) && Less(b, c)
    ensures Less(a, c)
  {
    if |a| > 0 && a[0] == b[0] && b[0] == c[0] {
      LessTransitive(a[1..], b[1..], c[1..]);
    }
  }

  lemma {:induction false} LessTrichotomy(a: Key, b: Key)
    ensures a == b || Less(a, b) || Less(b, a)
  {
    if |a| > 0 && |b| > 0 && a[0] == b[0] {
      LessTrichotomy(a[1..], b[1..]);
      if a[1..] == b[1..] {
        assert a == [a[0]] + a[1..] && b == [b[0]] + b[1..];
      }
    }
  }

  lemma LessAsymmetric(a: Key, b: Key)
    requires Less(a, b)
    ensures !Less(b, a)
  {
    if Less(b, a) {
      LessTransitive(a, b, a);
      LessIrreflexive(a);
    }
  }

  /** Comparing two keys that start with the same byte compares their tails. */
  lemma ConsLess(x: Byte, a: Key, b: Key)
    ensures Less([x] + a, [x] + b) <==> Less(a, b)
  {
    assert ([x] + a)[1..] == a && ([x] + b)[1..] == b;
  }

  /** A common first byte does not change whether one key properly
      prefixes another. */
  lemma ConsProperPrefix(x: Byte, p: Key, k: Key)
    ensures ProperPrefix([x] + p, [x] + k) <==> ProperPrefix(p, k)
  {
    if ProperPrefix([x] + p, [x] + k) {
      assert k[..|p|] == ([x] + k)[1..|p| + 1] == ([x] + p)[1..];
    }
    if ProperPrefix(p, k) {
      assert ([x] + k)[..|p| + 1] == [x] + k[..|p|];
    }
  }

  /** A proper prefix is smaller than the key it prefixes. */
  lemma {:induction false} ProperPrefixLess(p: Key, k: Key)
    requires ProperPrefix(p, k)
    ensures Less(p, k)
  {
    if |p| > 0 {
      assert k[1..][..|p| - 1] == p[1..];
      ProperPrefixLess(p[1..], k[1..]);
    }
  }
}
