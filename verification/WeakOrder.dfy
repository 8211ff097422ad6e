// Comparators, sorted ranges and permutations of a range: the vocabulary of the device sorts.

module WeakOrder {

  /** What a comparator promises: irreflexive, transitive, and incomparability is transitive too. */
  ghost predicate StrictWeakOrder<T(!new)>(cmp: (T, T) -> bool) {
    && (forall x :: !cmp(x, x))
    && (forall x, y, z :: cmp(x, y) && cmp(y, z) ==> cmp(x, z))
    && (forall x, y, z :: Alike(cmp, x, y) && Alike(cmp, y, z) ==> Alike(cmp, x, z))
  }

  predicate Alike<T>(cmp: (T, T) -> bool, x: T, y: T) { !cmp(x, y) && !cmp(y, x) }

  // The working form: "not greater" is transitive.
  lemma NotGreaterTransitive<T(!new)>(cmp: (T, T) -> bool, x: T, y: T, z: T)
    requires StrictWeakOrder(cmp) && !cmp(y, x) && !cmp(z, y)
    ensures !cmp(z, x)
  {
    if !cmp(x, y) && !cmp(y, z) {
      assert Alike(cmp, x, y) && Alike(cmp, y, z);
    }
  }

  lemma Asymmetric<T(!new)>(cmp: (T, T) -> bool, x: T, y: T)
    requires StrictWeakOrder(cmp) && cmp(x, y)
    ensures !cmp(y, x)
  {
    if cmp(y, x) {
      var cycle := cmp(x, x);
    }
  }

  /** Nothing in the range is smaller than anything before it. */
  ghost predicate Sorted<T>(s: seq<T>, lo: nat, hi: nat, cmp: (T, T) -> bool)
    requires lo <= hi <= |s|
  {
    forall i, j :: lo <= i < j < hi ==> !cmp(s[j], s[i])
  }

  /** t is s with the range lo..hi rearranged and everything else in place. */
  ghost predicate Permuted<T>(s: seq<T>, t: seq<T>, lo: nat, hi: nat)
    requires lo <= hi <= |s|
  {
    |t| == |s| && t[..lo] == s[..lo] && t[hi..] == s[hi..] && multiset(t[lo..hi]) == multiset(s[lo..hi])
  }

  lemma PermutedSelf<T>(s: seq<T>, lo: nat, hi: nat)
    requires lo <= hi <= |s|
    ensures Permuted(s, s, lo, hi)
  {}

  lemma PermutedTransitive<T>(s: seq<T>, t: seq<T>, u: seq<T>, lo: nat, hi: nat)
    requires lo <= hi <= |s| && Permuted(s, t, lo, hi) && Permuted(t, u, lo, hi)
    ensures Permuted(s, u, lo, hi)
  {}

  // A rearrangement of a smaller range is one of a larger range.
  lemma PermutedWiden<T>(s: seq<T>, t: seq<T>, p: nat, q: nat, lo: nat, hi: nat)
    requires lo <= p <= q <= hi <= |s| && Permuted(s, t, p, q)
    ensures Permuted(s, t, lo, hi)
  {
    assert t[..lo] == t[..p][..lo] && s[..lo] == s[..p][..lo];
    assert t[hi..] == t[q..][hi - q..] && s[hi..] == s[q..][hi - q..];
    assert t[lo..p] == t[..p][lo..] && s[lo..p] == s[..p][lo..];
    assert t[q..hi] == t[q..][..hi - q] && s[q..hi] == s[q..][..hi - q];
    assert t[lo..hi] == t[lo..p] + t[p..q] + t[q..hi];
    assert s[lo..hi] == s[lo..p] + s[p..q] + s[q..hi];
  }

  lemma PermutedSwap<T>(s: seq<T>, i: nat, j: nat, lo: nat, hi: nat)
    requires lo <= i < hi <= |s| && lo <= j < hi
    ensures Permuted(s, s[i := s[j]][j := s[i]], lo, hi)
  {
    var t := s[i := s[j]][j := s[i]];
    assert t[..lo] == s[..lo] && t[hi..] == s[hi..];
    var u := s[lo..hi];
    assert t[lo..hi] == u[i - lo := u[j - lo]][j - lo := u[i - lo]];
  }

  // Every element of the rearranged range was somewhere in the range before.
  lemma CameFrom<T>(s: seq<T>, t: seq<T>, lo: nat, hi: nat, k: nat) returns (i: nat)
    requires lo <= hi <= |s| && Permuted(s, t, lo, hi) && lo <= k < hi
    ensures lo <= i < hi && s[i] == t[k]
  {
    assert t[lo..hi][k - lo] in multiset(t[lo..hi]);
    assert t[k] in s[lo..hi];
    var d :| 0 <= d < hi - lo && s[lo..hi][d] == t[k];
    i := lo + d;
  }

  lemma Outside<T>(s: seq<T>, t: seq<T>, lo: nat, hi: nat, k: nat)
    requires lo <= hi <= |s| && Permuted(s, t, lo, hi) && (k < lo || hi <= k < |s|)
    ensures t[k] == s[k]
  {
    if k < lo {
      assert t[k] == t[..lo][k] && s[k] == s[..lo][k];
    } else {
      assert t[k] == t[hi..][k - hi] && s[k] == s[hi..][k - hi];
    }
  }
}
