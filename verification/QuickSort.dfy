// The device quicksort: an explicit fixed-size stack, unguarded partition scans around the median
// of three, and one insertion pass over short segments.

module QuickSort {
  import opened Bits
  import opened WeakOrder

  // ---------------------------------------------------------------------------------------------
  // Insertion sort.

  /** No element is smaller than one that stands w or more places before it. */
  ghost predicate Banded<T>(s: seq<T>, lo: nat, hi: nat, w: nat, cmp: (T, T) -> bool)
    requires lo <= hi <= |s|
  {
    forall i, j :: lo <= i && i + w <= j < hi ==> !cmp(s[j], s[i])
  }

  // s with the element at position i moved down to position k.
  function MovedDown<T>(s: seq<T>, k: nat, i: nat): seq<T>
    requires k <= i < |s|
  {
    s[..k] + [s[i]] + s[k..i] + s[i + 1..]
  }

  lemma MovedDownPermutes<T>(s: seq<T>, k: nat, i: nat, lo: nat, hi: nat)
    requires lo <= k <= i < hi <= |s|
    ensures Permuted(s, MovedDown(s, k, i), lo, hi)
  {
    var t := MovedDown(s, k, i);
    var middle := s[lo..k] + [s[i]] + s[k..i] + s[i + 1..hi];
    assert |middle| == hi - lo;
    assert s[..k] == s[..lo] + s[lo..k] && s[i + 1..] == s[i + 1..hi] + s[hi..];
    assert t == s[..lo] + middle + s[hi..];
    assert t[..lo] == s[..lo] && t[hi..] == s[hi..] && t[lo..hi] == middle;
    assert s[lo..hi] == s[lo..k] + s[k..i] + [s[i]] + s[i + 1..hi];
  }

  // Inserting into a sorted prefix keeps it sorted, and keeps the whole range banded.
  lemma InsertKeepsOrder<T(!new)>(s: seq<T>, k: nat, i: nat, lo: nat, hi: nat, w: nat, cmp: (T, T) -> bool)
    requires StrictWeakOrder(cmp) && lo <= k <= i < hi <= |s| && w >= 1
    requires Sorted(s, lo, i, cmp) && Banded(s, lo, hi, w, cmp)
    requires forall j :: k <= j < i ==> cmp(s[i], s[j])
    requires k > lo ==> !cmp(s[i], s[k - 1])
    ensures Sorted(MovedDown(s, k, i), lo, i + 1, cmp)
    ensures Banded(MovedDown(s, k, i), lo, hi, w, cmp)
  {
    var t := MovedDown(s, k, i);
    forall x, y | lo <= x < y < i + 1
      ensures !cmp(t[y], t[x])
    {
      if y == k && x < k - 1 {
        NotGreaterTransitive(cmp, s[x], s[k - 1], s[i]);
      }
    }
    forall x, y | lo <= x && x + w <= y < hi
      ensures !cmp(t[y], t[x])
    {
      if y > i && x == k && k < i {
        assert !cmp(s[y], s[k]) && cmp(s[i], s[k]);
      }
    }
  }

  lemma SortedShort<T>(s: seq<T>, f: nat, cmp: (T, T) -> bool)
    requires f <= |s|
    ensures Sorted(s, f, f, cmp)
  {}

  lemma BandStops<T>(s: seq<T>, f: nat, l: nat, w: nat, cmp: (T, T) -> bool, k: nat, i: nat)
    requires f <= l <= |s| && Banded(s, f, l, w, cmp) && f <= k < i < l && cmp(s[i], s[k])
    ensures i - k < w
  {}

  /** The inner loop: the element at it0 moves down past every greater one before it. */
  method Insert<T(!new)>(a: array<T>, f: nat, it0: nat, ghost l: nat, cmp: (T, T) -> bool, ghost w: nat)
    returns (it1: nat)
    requires f <= it0 < l <= a.Length && w >= 1 && Banded(a[..], f, l, w, cmp)
    modifies a
    ensures f <= it1 <= it0 && it0 - it1 < w
    ensures a[..] == MovedDown(old(a[..]), it1, it0)
    ensures forall k :: it1 <= k < it0 ==> cmp(old(a[it0]), old(a[k]))
    ensures it1 > f ==> !cmp(old(a[it0]), old(a[it1 - 1]))
  {
    hide Banded;
    ghost var s := a[..];
    var tmp := a[it0];
    it1 := it0;
    while it1 != f && cmp(tmp, a[it1 - 1])
      invariant f <= it1 <= it0 && it0 - it1 < w
      invariant forall k :: 0 <= k < a.Length && !(it1 < k <= it0) ==> a[k] == s[k]
      invariant forall k :: it1 < k <= it0 ==> a[k] == s[k - 1]
      invariant forall k :: it1 <= k < it0 ==> cmp(tmp, s[k])
      decreases it1
    {
      BandStops(s, f, l, w, cmp, it1 - 1, it0);
      a[it1] := a[it1 - 1];
      it1 := it1 - 1;
    }
    a[it1] := tmp;
  }

  /** The k-th element from f on has moved down to places[k], by fewer than w places. */
  ghost predicate ShortMoves(places: seq<nat>, f: nat, w: nat) {
    forall k :: 0 <= k < |places| ==> f <= places[k] <= f + k && f + k - places[k] < w
  }

  /** What these moves, one after the other, make of s. */
  ghost function Replay<T>(s: seq<T>, f: nat, places: seq<nat>, w: nat): (r: seq<T>)
    requires ShortMoves(places, f, w) && f + |places| <= |s|
    ensures |r| == |s|
  {
    if places == [] then s
    else
      var last := |places| - 1;
      MovedDown(Replay(s, f, places[..last], w), places[last], f + last)
  }

  lemma ReplayNext<T>(s: seq<T>, f: nat, places: seq<nat>, w: nat, place: nat)
    requires ShortMoves(places, f, w) && f + |places| < |s|
    requires f <= place <= f + |places| && f + |places| - place < w
    ensures ShortMoves(places + [place], f, w)
    ensures Replay(s, f, places + [place], w) == MovedDown(Replay(s, f, places, w), place, f + |places|)
  {
    assert (places + [place])[..|places|] == places;
  }

  lemma ReplayStart<T>(s: seq<T>, f: nat, w: nat)
    requires f <= |s|
    ensures ShortMoves([], f, w) && Replay(s, f, [], w) == s
  {}

  /** Sorts the range by moving each element down, in turn, to one of the places; with a band of width w
      every one of these moves is shorter than w. */
  method InsertionSort<T(!new)>(a: array<T>, f: nat, l: nat, cmp: (T, T) -> bool, ghost w: nat)
    returns (ghost places: seq<nat>)
    requires f <= l <= a.Length && StrictWeakOrder(cmp)
    requires w >= 1 && Banded(a[..], f, l, w, cmp)
    modifies a
    ensures Sorted(a[..], f, l, cmp) && Permuted(old(a[..]), a[..], f, l)
    ensures |places| == l - f && ShortMoves(places, f, w) && a[..] == Replay(old(a[..]), f, places, w)
  {
    hide *;
    PermutedSelf(a[..], f, l);
    SortedShort(a[..], f, cmp);
    ReplayStart(a[..], f, w);
    places := [];
    var it0 := f;
    while it0 != l
      invariant f <= it0 <= l
      invariant Sorted(a[..], f, it0, cmp) && Banded(a[..], f, l, w, cmp)
      invariant Permuted(old(a[..]), a[..], f, l)
      invariant |places| == it0 - f && ShortMoves(places, f, w) && a[..] == Replay(old(a[..]), f, places, w)
      decreases l - it0
    {
      ghost var s := a[..];
      var it1 := Insert(a, f, it0, l, cmp, w);
      InsertKeepsOrder(s, it1, it0, f, l, w, cmp);
      MovedDownPermutes(s, it1, it0, f, l);
      PermutedTransitive(old(a[..]), s, a[..], f, l);
      ReplayNext(old(a[..]), f, places, w, it1);
      places := places + [it1];
      it0 := it0 + 1;
    }
  }

  // ---------------------------------------------------------------------------------------------
  // The pivot and the partition.

  predicate TwoOf(p: bool, q: bool, r: bool) { (p && q) || (p && r) || (q && r) }

  /** The element at m is one of the three looked at; two of them are no smaller, two no greater. */
  ghost predicate IsMedian<T>(s: seq<T>, f: nat, l: nat, m: nat, cmp: (T, T) -> bool)
    requires f <= m < l <= |s|
  {
    var mid := f + (l - f) / 2;
    && (m == f || m == mid || m == l - 1)
    && TwoOf(!cmp(s[f], s[m]), !cmp(s[mid], s[m]), !cmp(s[l - 1], s[m]))
    && TwoOf(!cmp(s[m], s[f]), !cmp(s[m], s[mid]), !cmp(s[m], s[l - 1]))
  }

  method MedianOf3Select<T(!new)>(a: array<T>, f: nat, l0: nat, cmp: (T, T) -> bool) returns (r: nat)
    requires f < l0 <= a.Length && StrictWeakOrder(cmp)
    ensures f <= r < l0 && IsMedian(a[..], f, l0, r, cmp)
  {
    var m := f + (l0 - f) / 2;
    var l := l0 - 1;
    if cmp(a[f], a[m]) {
      if cmp(a[m], a[l]) {
        return m;
      } else if cmp(a[f], a[l]) {
        return l;
      } else {
        return f;
      }
    } else if cmp(a[f], a[l]) {
      return f;
    } else if cmp(a[m], a[l]) {
      return l;
    } else {
      return m;
    }
  }

  /** The scan from the left: no bounds test, some element up ahead is not smaller than the pivot. */
  method ScanUp<T(!new)>(a: array<T>, f0: nat, piv: T, cmp: (T, T) -> bool, ghost up: nat) returns (f: nat)
    requires f0 <= up < a.Length && StrictWeakOrder(cmp) && !cmp(a[up], piv)
    ensures f0 <= f <= up && !cmp(a[f], piv)
    ensures forall k :: f0 <= k < f ==> !cmp(piv, a[k])
  {
    hide StrictWeakOrder;
    f := f0;
    while cmp(a[f], piv)
      invariant f0 <= f <= up
      invariant forall k :: f0 <= k < f ==> !cmp(piv, a[k])
      decreases up - f
    {
      Asymmetric(cmp, a[f], piv);
      f := f + 1;
    }
  }

  /** The scan from the right: some element down below is not greater than the pivot. */
  method ScanDown<T(!new)>(a: array<T>, l0: nat, piv: T, cmp: (T, T) -> bool, ghost down: nat) returns (l: nat)
    requires down < l0 <= a.Length && StrictWeakOrder(cmp) && !cmp(piv, a[down])
    ensures down <= l < l0 && !cmp(piv, a[l])
    ensures forall k :: l < k < l0 ==> !cmp(a[k], piv)
  {
    hide StrictWeakOrder;
    l := l0 - 1;
    while cmp(piv, a[l])
      invariant down <= l < l0
      invariant forall k :: l < k < l0 ==> !cmp(a[k], piv)
      decreases l
    {
      Asymmetric(cmp, piv, a[l]);
      l := l - 1;
    }
  }

  lemma SwapPermutes<T>(was: seq<T>, s: seq<T>, f: nat, l: nat, f0: nat, l0: nat)
    requires f0 <= f < l < l0 <= |s| == |was| && Permuted(was, s, f0, l0)
    ensures Permuted(was, s[f := s[l]][l := s[f]], f0, l0)
  {
    hide *;
    PermutedSwap(s, f, l, f0, l0);
    PermutedTransitive(was, s, s[f := s[l]][l := s[f]], f0, l0);
  }

  /** Hoare's scans, which stay inside the range, and a swap after each pair of them. */
  method UnguardedPartition<T(!new)>(a: array<T>, f0: nat, l0: nat, piv: T, cmp: (T, T) -> bool) returns (pp: nat)
    requires f0 < l0 <= a.Length && StrictWeakOrder(cmp)
    requires exists i :: f0 <= i < l0 && !cmp(a[i], piv)
    requires exists j :: f0 <= j < l0 && !cmp(piv, a[j])
    modifies a
    ensures f0 <= pp < l0
    ensures forall k :: f0 <= k < pp ==> !cmp(piv, a[k])
    ensures forall k :: pp <= k < l0 ==> !cmp(a[k], piv)
    ensures Permuted(old(a[..]), a[..], f0, l0)
    ensures (exists j :: f0 < j < l0 && !cmp(piv, old(a[j]))) ==> f0 < pp
  {
    hide *;
    PermutedSelf(a[..], f0, l0);
    var f, l := f0, l0;
    ghost var up :| f0 <= up < l0 && !cmp(a[up], piv);
    ghost var inner := exists j :: f0 < j < l0 && !cmp(piv, a[j]);
    ghost var down :| f0 <= down < l0 && !cmp(piv, a[down]) && (inner ==> f0 < down);
    while true
      invariant f0 <= f <= up < l0 && f0 <= down < l <= l0
      invariant f <= l && (f == f0 && inner ==> f0 < down)
      invariant !cmp(a[up], piv) && !cmp(piv, a[down])
      invariant forall k :: f0 <= k < f ==> !cmp(piv, a[k])
      invariant forall k :: l <= k < l0 ==> !cmp(a[k], piv)
      invariant Permuted(old(a[..]), a[..], f0, l0)
      decreases l - f
    {
      f := ScanUp(a, f, piv, cmp, up);
      l := ScanDown(a, l, piv, cmp, down);
      if l <= f {
        return f;
      }
      SwapPermutes(old(a[..]), a[..], f, l, f0, l0);
      ghost var s := a[..];
      a[f], a[l] := a[l], a[f];
      assert a[..] == s[f := s[l]][l := s[f]];
      up, down := l, f;
      f := f + 1;
    }
  }

  // ---------------------------------------------------------------------------------------------
  // The explicit stack: a fixed array whose length depends on the width of the index type.

  datatype Range = Range(first: nat, second: nat)

  class Stack {
    const bits: nat
    const data: array<Range>
    var n: nat

    ghost predicate Valid()
      reads this
    {
      bits >= 6 && data.Length == bits - 4 && n <= data.Length
    }

    ghost function Contents(): seq<Range>
      requires Valid()
      reads this, data
    {
      data[..n]
    }

    constructor (indexBits: nat)
      requires indexBits >= 6
      ensures Valid() && fresh(data) && bits == indexBits && Contents() == []
    {
      bits := indexBits;
      data := new Range[indexBits - 4](_ => Range(0, 0));
      n := 0;
    }

    /** Needs a free slot, and both positions must fit the index type. */
    method Emplace(x: nat, y: nat)
      requires Valid() && |Contents()| < bits - 4 && x < Pow2(bits) && y < Pow2(bits)
      modifies this, data
      ensures Valid() && Contents() == old(Contents()) + [Range(x, y)]
    {
      data[n] := Range(x, y);
      n := n + 1;
    }

    predicate IsEmpty()
      requires Valid()
      reads this, data
      ensures IsEmpty() <==> Contents() == []
    {
      n == 0
    }

    function Top(): (r: Range)
      requires Valid() && Contents() != []
      reads this, data
      ensures r == Contents()[|Contents()| - 1]
    {
      data[n - 1]
    }

    method Pop()
      requires Valid() && Contents() != []
      modifies this
      ensures Valid() && Contents() == old(Contents()[..|Contents()| - 1])
    {
      n := n - 1;
    }
  }

  // ---------------------------------------------------------------------------------------------
  // Cuts: positions nothing to the right of which is smaller than anything to the left.

  ghost predicate CutAt<T>(s: seq<T>, f: nat, l: nat, c: nat, cmp: (T, T) -> bool)
    requires f <= l <= |s|
  {
    forall i, j :: f <= i < f + c <= j < l ==> !cmp(s[j], s[i])
  }

  ghost predicate CutsHold<T>(s: seq<T>, f: nat, l: nat, cuts: set<nat>, cmp: (T, T) -> bool)
    requires f <= l <= |s|
  {
    forall c :: c in cuts ==> CutAt(s, f, l, c, cmp)
  }

  ghost predicate Adjacent(cuts: set<nat>, p: nat, q: nat) {
    p in cuts && q in cuts && p < q && forall c :: c in cuts ==> !(p < c < q)
  }

  /** The range is a sequence of segments of at most 50 elements, and nothing in a later segment is
      smaller than anything in an earlier one. */
  ghost predicate Segmented<T>(s: seq<T>, f: nat, l: nat, cuts: set<nat>, cmp: (T, T) -> bool)
    requires f <= l <= |s|
  {
    && 0 in cuts && l - f in cuts && CutsHold(s, f, l, cuts, cmp)
    && forall p, q :: Adjacent(cuts, p, q) ==> q - p <= 50
  }

  ghost function CutBelow(cuts: set<nat>, x: nat): (p: nat)
    requires 0 in cuts
    ensures p in cuts && p <= x && forall c :: c in cuts ==> !(p < c <= x)
  {
    if x in cuts then x else CutBelow(cuts, x - 1)
  }

  ghost function CutAbove(cuts: set<nat>, x: nat, n: nat): (q: nat)
    requires x < n && n in cuts
    ensures q in cuts && x < q && forall c :: c in cuts ==> !(x < c < q)
    decreases n - x
  {
    if x + 1 in cuts then x + 1 else CutAbove(cuts, x + 1, n)
  }

  /** Short segments keep every element within 49 places of where it has to go. */
  lemma SegmentsBand<T(!new)>(s: seq<T>, f: nat, l: nat, cuts: set<nat>, cmp: (T, T) -> bool)
    requires f <= l <= |s| && Segmented(s, f, l, cuts, cmp)
    ensures Banded(s, f, l, 50, cmp)
  {
    forall i, j | f <= i && i + 50 <= j < l
      ensures !cmp(s[j], s[i])
    {
      var p, q := CutBelow(cuts, i - f), CutAbove(cuts, i - f, l - f);
      assert Adjacent(cuts, p, q);
      assert CutAt(s, f, l, q, cmp);
    }
  }

  /** Partitioning between two neighbouring cuts keeps every cut, and makes the place it returns one. */
  lemma PartitionKeepsCuts<T(!new)>(s: seq<T>, t: seq<T>, f: nat, l: nat, p: nat, q: nat, c: nat, cuts: set<nat>,
                                    piv: T, cmp: (T, T) -> bool)
    requires StrictWeakOrder(cmp) && f <= l <= |s| && CutsHold(s, f, l, cuts, cmp)
    requires Adjacent(cuts, p, q) && q <= l - f && p <= c < q
    requires Permuted(s, t, f + p, f + q)
    requires forall k :: f + p <= k < f + c ==> !cmp(piv, t[k])
    requires forall k :: f + c <= k < f + q ==> !cmp(t[k], piv)
    ensures |t| == |s| && CutsHold(t, f, l, cuts + {c}, cmp)
  {
    forall d | d in cuts
      ensures CutAt(t, f, l, d, cmp)
    {
      OldCutKept(s, t, f, l, p, q, d, cmp);
    }
    forall i, j | f <= i < f + c <= j < l
      ensures !cmp(t[j], t[i])
    {
      if f + p <= i && j < f + q {
        NotGreaterTransitive(cmp, t[i], piv, t[j]);
      } else if i < f + p {
        OldCutKept(s, t, f, l, p, q, p, cmp);
      } else {
        OldCutKept(s, t, f, l, p, q, q, cmp);
      }
    }
  }

  lemma OldCutKept<T(!new)>(s: seq<T>, t: seq<T>, f: nat, l: nat, p: nat, q: nat, d: nat, cmp: (T, T) -> bool)
    requires f <= l <= |s| && p <= q <= l - f && (d <= p || q <= d)
    requires Permuted(s, t, f + p, f + q) && CutAt(s, f, l, d, cmp)
    ensures CutAt(t, f, l, d, cmp)
  {
    assert |t| == |s|;
    hide Permuted;
    forall i, j | f <= i < f + d <= j < l
      ensures !cmp(t[j], t[i])
    {
      var i' := Origin(s, t, f + p, f + q, i);
      var j' := Origin(s, t, f + p, f + q, j);
    }
  }

  lemma Origin<T>(s: seq<T>, t: seq<T>, lo: nat, hi: nat, k: nat) returns (i: nat)
    requires lo <= hi <= |s| && Permuted(s, t, lo, hi) && k < |s|
    ensures i < |s| && s[i] == t[k] && (lo <= k < hi <==> lo <= i < hi) && (!(lo <= k < hi) ==> i == k)
  {
    if lo <= k < hi {
      i := CameFrom(s, t, lo, hi, k);
    } else {
      Outside(s, t, lo, hi, k);
      i := k;
    }
  }

  // ---------------------------------------------------------------------------------------------
  // What the stack holds.

  // The k-th entry from the bottom is at most n / 2^k long.
  ghost predicate EntryFits(r: Range, cuts: set<nat>, k: nat, n: nat) {
    && Adjacent(cuts, r.first, r.second)
    && (r.second - r.first) * Pow2(k) <= n
    && (1 <= k ==> r.second - r.first > 50)
  }

  /** The stack holds gaps between neighbouring cuts, and every gap that is still too long. */
  ghost predicate StackHolds(stack: seq<Range>, cuts: set<nat>, n: nat) {
    && 0 in cuts && n in cuts && (forall c :: c in cuts ==> c <= n)
    && (forall k :: 0 <= k < |stack| ==> EntryFits(stack[k], cuts, k, n))
    && (forall i, j :: 0 <= i < j < |stack| ==> stack[i] != stack[j])
    && (forall p, q :: Adjacent(cuts, p, q) && q - p > 50 ==> Range(p, q) in stack)
  }

  // The two parts, the longer one first so that the shorter one is on top; short ones are left out.
  function Pushed(p: nat, c: nat, q: nat): seq<Range>
    requires p <= c <= q
  {
    var left, right := if c - p > 50 then [Range(p, c)] else [], if q - c > 50 then [Range(c, q)] else [];
    if c - p < q - c then right + left else left + right
  }

  /** The longer part was pushed first: the stack of n < 2^bits elements never exceeds bits - 5. */
  lemma StackDepth(stack: seq<Range>, cuts: set<nat>, n: nat, bits: nat)
    requires StackHolds(stack, cuts, n) && n < Pow2(bits) && bits >= 6
    ensures |stack| <= bits - 5
  {
    var k := |stack| - 1;
    if k >= bits - 5 && k >= 1 {
      assert EntryFits(stack[k], cuts, k, n);
      Pow2Up(bits - 5, 5);
      Pow2Monotone(bits - 5, k);
      MulMono(51, stack[k].second - stack[k].first, Pow2(k));
    }
  }

  // Adding a cut inside one gap leaves the other gaps alone.
  lemma SplitGap(cuts: set<nat>, p: nat, c: nat, q: nat, x: nat, y: nat)
    requires Adjacent(cuts, p, q) && p <= c < q
    ensures Adjacent(cuts + {c}, x, y) <==>
            if p == c then Adjacent(cuts, x, y)
            else (Adjacent(cuts, x, y) && (x, y) != (p, q)) || (x, y) == (p, c) || (x, y) == (c, q)
  {
    var more := cuts + {c};
    if p == c {
      assert more == cuts;
    } else {
      assert c !in cuts && c in more;
      if Adjacent(cuts, x, y) && !Adjacent(more, x, y) {
        assert x < c < y;
        assert !(x < p < y) && !(x < q < y) && !(p < x < q) && !(p < y < q);
      }
      if Adjacent(more, x, y) && !Adjacent(cuts, x, y) {
        assert x == c || y == c;
        assert !(x < p < y) && !(x < q < y) by { assert p in more && q in more; }
      }
      if Adjacent(more, x, y) && Adjacent(cuts, x, y) {
        assert !(x < c < y);
      }
    }
  }

  lemma PushedRanges(p: nat, c: nat, q: nat, k: nat)
    requires p <= c < q && (q - p > 50 ==> p < c)
    requires k < |Pushed(p, c, q)|
    ensures var r := Pushed(p, c, q)[k];
            && (r == Range(p, c) || r == Range(c, q))
            && r.second - r.first > 50 && p < c
            && k <= 1 && (k + 1) * (r.second - r.first) <= q - p
  {}

  lemma PushedComplete(p: nat, c: nat, q: nat)
    requires p <= c < q
    ensures c - p > 50 ==> Range(p, c) in Pushed(p, c, q)
    ensures q - c > 50 ==> Range(c, q) in Pushed(p, c, q)
    ensures |Pushed(p, c, q)| == 2 && p < c ==> Pushed(p, c, q)[0] != Pushed(p, c, q)[1]
  {}

  function NextStack(stack: seq<Range>, c: nat): seq<Range>
    requires stack != []
    requires var r := stack[|stack| - 1]; r.first <= c <= r.second
  {
    var r := stack[|stack| - 1];
    stack[..|stack| - 1] + Pushed(r.first, c, r.second)
  }

  ghost predicate Splits(stack: seq<Range>, cuts: set<nat>, n: nat, c: nat) {
    && StackHolds(stack, cuts, n) && stack != []
    && var r := stack[|stack| - 1]; r.first <= c < r.second && (r.second - r.first > 50 ==> r.first < c)
  }

  lemma KeptEntry(r: Range, top: Range, cuts: set<nat>, n: nat, c: nat, k: nat)
    requires EntryFits(r, cuts, k, n) && r != top
    requires Adjacent(cuts, top.first, top.second) && top.first <= c < top.second
    ensures EntryFits(r, cuts + {c}, k, n)
  {
    hide Adjacent, Pow2;
    SplitGap(cuts, top.first, c, top.second, r.first, r.second);
  }

  lemma PushedEntry(top: Range, cuts: set<nat>, n: nat, c: nat, d: nat, k: nat)
    requires EntryFits(top, cuts, d, n) && top.first <= c < top.second
    requires (top.second - top.first > 50 ==> top.first < c) && k < |Pushed(top.first, c, top.second)|
    ensures EntryFits(Pushed(top.first, c, top.second)[k], cuts + {c}, d + k, n)
  {
    hide Adjacent, Pow2, Pushed;
    var r := Pushed(top.first, c, top.second)[k];
    PushedRanges(top.first, c, top.second, k);
    SplitGap(cuts, top.first, c, top.second, r.first, r.second);
    PushedSize(r.second - r.first, top.second - top.first, d, k, n);
  }

  lemma SplitEntry(stack: seq<Range>, cuts: set<nat>, n: nat, c: nat, k: nat)
    requires Splits(stack, cuts, n, c) && k < |NextStack(stack, c)|
    ensures EntryFits(NextStack(stack, c)[k], cuts + {c}, k, n)
  {
    var d := |stack| - 1;
    var top := stack[d];
    assert EntryFits(top, cuts, d, n) && Adjacent(cuts, top.first, top.second);
    hide Adjacent, Pow2, Pushed, EntryFits;
    if k >= d {
      PushedEntry(top, cuts, n, c, d, k - d);
    } else {
      assert stack[k] != stack[d];
      KeptEntry(stack[k], top, cuts, n, c, k);
    }
  }

  lemma SplitDistinct(stack: seq<Range>, cuts: set<nat>, n: nat, c: nat, i: nat, j: nat)
    requires Splits(stack, cuts, n, c) && i < j < |NextStack(stack, c)|
    ensures NextStack(stack, c)[i] != NextStack(stack, c)[j]
  {
    var d := |stack| - 1;
    var p, q := stack[d].first, stack[d].second;
    PushedComplete(p, c, q);
    if j >= d {
      PushedRanges(p, c, q, j - d);
      if i < d {
        assert EntryFits(stack[i], cuts, i, n) && EntryFits(stack[d], cuts, d, n);
      }
    }
  }

  lemma SplitComplete(stack: seq<Range>, cuts: set<nat>, n: nat, c: nat, x: nat, y: nat)
    requires Splits(stack, cuts, n, c) && Adjacent(cuts + {c}, x, y) && y - x > 50
    ensures Range(x, y) in NextStack(stack, c)
  {
    var d := |stack| - 1;
    var p, q := stack[d].first, stack[d].second;
    assert EntryFits(stack[d], cuts, d, n) && Adjacent(cuts, p, q);
    hide Adjacent, Pow2, EntryFits;
    SplitGap(cuts, p, c, q, x, y);
    PushedComplete(p, c, q);
    if Adjacent(cuts, x, y) && (x, y) != (p, q) {
      var k :| 0 <= k < |stack| && stack[k] == Range(x, y);
      assert NextStack(stack, c)[k] == Range(x, y);
    }
  }

  /** Replacing the top range by its long parts keeps what the stack holds. */
  lemma SplitStack(stack: seq<Range>, cuts: set<nat>, n: nat, c: nat)
    requires Splits(stack, cuts, n, c)
    ensures StackHolds(NextStack(stack, c), cuts + {c}, n)
  {
    var next := NextStack(stack, c);
    var r := stack[|stack| - 1];
    assert EntryFits(r, cuts, |stack| - 1, n) && Adjacent(cuts, r.first, r.second) && r.second in cuts;
    hide Pow2, NextStack, Adjacent, EntryFits;
    forall k | 0 <= k < |next|
      ensures EntryFits(next[k], cuts + {c}, k, n)
    {
      SplitEntry(stack, cuts, n, c, k);
    }
    forall i, j | 0 <= i < j < |next|
      ensures next[i] != next[j]
    {
      SplitDistinct(stack, cuts, n, c, i, j);
    }
    forall x, y | Adjacent(cuts + {c}, x, y) && y - x > 50
      ensures Range(x, y) in next
    {
      SplitComplete(stack, cuts, n, c, x, y);
    }
  }

  lemma PushedSize(size: nat, whole: nat, d: nat, k: nat, n: nat)
    requires k <= 1 && (k + 1) * size <= whole && whole * Pow2(d) <= n
    ensures size * Pow2(d + k) <= n
  {
    MulMono((k + 1) * size, whole, Pow2(d));
    if k == 1 { MulShuffle(2, size, Pow2(d)); MulShuffle(size, 2, Pow2(d)); }
  }

  lemma {:induction false} CutCount(cuts: set<nat>, n: nat)
    requires forall c :: c in cuts ==> c < n
    ensures |cuts| <= n
  {
    if n > 0 {
      CutCount(cuts - {n - 1}, n - 1);
    } else {
      assert cuts == {};
    }
  }

  lemma MedianGuards<T(!new)>(s: seq<T>, f: nat, l: nat, m: nat, cmp: (T, T) -> bool)
    requires f <= m < l <= |s| && IsMedian(s, f, l, m, cmp)
    ensures exists i :: f <= i < l && !cmp(s[i], s[m])
    ensures exists j :: f <= j < l && !cmp(s[m], s[j])
    ensures l - f >= 2 ==> exists j :: f < j < l && !cmp(s[m], s[j])
  {
    var mid := f + (l - f) / 2;
    assert !cmp(s[f], s[m]) || !cmp(s[mid], s[m]);
    assert !cmp(s[m], s[mid]) || !cmp(s[m], s[l - 1]);
  }

  /** One turn of the loop: median, partition, and the cut it makes. */
  method Split<T(!new)>(a: array<T>, ghost f: nat, ghost l: nat, it0: nat, it1: nat, ghost cuts: set<nat>,
                        cmp: (T, T) -> bool)
    returns (pp: nat)
    requires f <= it0 < it1 <= l <= a.Length && StrictWeakOrder(cmp)
    requires CutsHold(a[..], f, l, cuts, cmp) && Adjacent(cuts, it0 - f, it1 - f)
    modifies a
    ensures it0 <= pp < it1 && (it1 - it0 >= 2 ==> it0 < pp)
    ensures CutsHold(a[..], f, l, cuts + {pp - f}, cmp)
    ensures Permuted(old(a[..]), a[..], f, l)
  {
    hide *;
    var m := MedianOf3Select(a, it0, it1, cmp);
    var piv := a[m];
    MedianGuards(a[..], it0, it1, m, cmp);
    ghost var was := a[..];
    pp := UnguardedPartition(a, it0, it1, piv, cmp);
    PartitionKeepsCuts(was, a[..], f, l, it0 - f, it1 - f, pp - f, cuts, piv, cmp);
    PermutedWiden(was, a[..], it0, it1, f, l);
  }

  lemma StackStart(n: nat)
    requires n > 0
    ensures StackHolds([Range(0, n)], {0, n}, n)
  {
    assert Adjacent({0, n}, 0, n);
    assert EntryFits(Range(0, n), {0, n}, 0, n);
  }

  lemma CutsStart<T>(s: seq<T>, f: nat, l: nat, cmp: (T, T) -> bool)
    requires f <= l <= |s|
    ensures CutsHold(s, f, l, {0, l - f}, cmp)
  {}

  lemma StackTop(stack: seq<Range>, cuts: set<nat>, n: nat)
    requires StackHolds(stack, cuts, n) && stack != []
    ensures var r := stack[|stack| - 1]; Adjacent(cuts, r.first, r.second) && r.first < r.second <= n
  {
    assert EntryFits(stack[|stack| - 1], cuts, |stack| - 1, n);
  }

  lemma SplitsIntro(stack: seq<Range>, cuts: set<nat>, n: nat, c: nat)
    requires StackHolds(stack, cuts, n) && stack != []
    requires var r := stack[|stack| - 1]; r.first <= c < r.second && (r.second - r.first > 50 ==> r.first < c)
    ensures Splits(stack, cuts, n, c)
  {}

  lemma StackEmpty<T>(s: seq<T>, f: nat, l: nat, cuts: set<nat>, cmp: (T, T) -> bool)
    requires f <= l <= |s| && StackHolds([], cuts, l - f) && CutsHold(s, f, l, cuts, cmp)
    ensures Segmented(s, f, l, cuts, cmp)
  {}

  // Each turn either makes a new cut or, on a short range, only shrinks the stack.
  lemma TurnProgress(stack: seq<Range>, cuts: set<nat>, n: nat, c: nat)
    requires Splits(stack, cuts, n, c)
    ensures |cuts| <= n + 1 && |cuts + {c}| <= n + 1
    ensures |cuts| < |cuts + {c}| || (|cuts| <= |cuts + {c}| && |NextStack(stack, c)| < |stack|)
  {
    StackTop(stack, cuts, n);
    CutCount(cuts, n + 1);
    CutCount(cuts + {c}, n + 1);
    var r := stack[|stack| - 1];
    if r.first < c {
      assert c !in cuts;
    } else {
      assert cuts + {c} == cuts;
    }
  }

  /** What one turn does to the stack: the invariant, the depth and the progress. */
  lemma Turn(stack: seq<Range>, cuts: set<nat>, n: nat, c: nat, bits: nat)
    requires StackHolds(stack, cuts, n) && stack != [] && n < Pow2(bits) && bits >= 6
    requires var r := stack[|stack| - 1]; r.first <= c < r.second && (r.second - r.first > 50 ==> r.first < c)
    ensures var r := stack[|stack| - 1];
            var next := stack[..|stack| - 1] + Pushed(r.first, c, r.second);
            && StackHolds(next, cuts + {c}, n) && |next| <= bits - 5
            && |cuts| <= n + 1 && |cuts + {c}| <= n + 1
            && (|cuts| < |cuts + {c}| || (|cuts| <= |cuts + {c}| && |next| < |stack|))
  {
    hide StackHolds, Pow2, Pushed;
    SplitsIntro(stack, cuts, n, c);
    TurnProgress(stack, cuts, n, c);
    SplitStack(stack, cuts, n, c);
    StackDepth(NextStack(stack, c), cuts + {c}, n, bits);
  }

  /** The longer part first, so that the shorter one is taken next; parts of at most 50 are left to
      the insertion pass. */
  method PushParts(s: Stack, it0: nat, pp: nat, it1: nat)
    requires s.Valid() && it0 <= pp < it1 < Pow2(s.bits)
    requires |s.Contents()| + |Pushed(it0, pp, it1)| <= s.bits - 5
    modifies s, s.data
    ensures s.Valid() && s.Contents() == old(s.Contents()) + Pushed(it0, pp, it1)
  {
    var lsz, rsz := pp - it0, it1 - pp;
    if lsz < rsz {
      if rsz > 50 {
        s.Emplace(pp, it1);
      }
      if lsz > 50 {
        s.Emplace(it0, pp);
      }
    } else {
      if lsz > 50 {
        s.Emplace(it0, pp);
      }
      if rsz > 50 {
        s.Emplace(pp, it1);
      }
    }
  }

  /** The body of the loop: take the top range, split it, push its long parts. */
  method ProcessTop<T(!new)>(a: array<T>, f: nat, l: nat, s: Stack, cmp: (T, T) -> bool, ghost cuts: set<nat>)
    returns (ghost c: nat)
    requires f <= l <= a.Length && StrictWeakOrder(cmp) && (s.data as object) != a
    requires s.Valid() && l - f < Pow2(s.bits) && s.Contents() != []
    requires StackHolds(s.Contents(), cuts, l - f) && CutsHold(a[..], f, l, cuts, cmp)
    modifies a, s, s.data
    ensures s.Valid() && |s.Contents()| <= s.bits - 5 && StackStep(old(s.Contents()), s.Contents())
    ensures StackHolds(s.Contents(), cuts + {c}, l - f) && CutsHold(a[..], f, l, cuts + {c}, cmp)
    ensures Permuted(old(a[..]), a[..], f, l)
    ensures |cuts| <= l - f + 1 && |cuts + {c}| <= l - f + 1
    ensures |cuts| < |cuts + {c}| || (|cuts| <= |cuts + {c}| && |s.Contents()| < |old(s.Contents())|)
  {
    hide *;
    ghost var stack, n := s.Contents(), l - f;
    StackTop(stack, cuts, n);
    var it0, it1 := f + s.Top().first, f + s.Top().second;
    s.Pop();
    ghost var rest := s.Contents();
    var pp := Split(a, f, l, it0, it1, cuts, cmp);
    c := pp - f;
    Turn(stack, cuts, n, c, s.bits);
    StackStepIntro(stack, c);
    assert s.Contents() == rest;
    ghost var now := a[..];
    PushParts(s, it0 - f, pp - f, it1 - f);
    assert a[..] == now;
  }

  /** One turn: the top range gives way to those of its two parts that are long. */
  ghost predicate StackStep(before: seq<Range>, after: seq<Range>) {
    && before != []
    && var r := before[|before| - 1];
       exists c: nat :: r.first <= c <= r.second && after == NextStack(before, c)
  }

  lemma StackStepIntro(before: seq<Range>, c: nat)
    requires before != [] && before[|before| - 1].first <= c <= before[|before| - 1].second
    ensures var r := before[|before| - 1];
            StackStep(before, before[..|before| - 1] + Pushed(r.first, c, r.second))
  {
    var r := before[|before| - 1];
    assert NextStack(before, c) == before[..|before| - 1] + Pushed(r.first, c, r.second);
  }

  /** What the stack held before the first turn and after each: from the whole range to nothing, turn by
      turn, and never more than bits - 5 entries. */
  ghost predicate StackRun(stacks: seq<seq<Range>>, n: nat, bits: nat) {
    && stacks != [] && stacks[0] == [Range(0, n)]
    && (forall k :: 0 <= k < |stacks| ==> |stacks[k]| <= bits - 5)
    && (forall k :: 0 < k < |stacks| ==> StackStep(stacks[k - 1], stacks[k]))
  }

  lemma StackRunNext(stacks: seq<seq<Range>>, n: nat, bits: nat, next: seq<Range>)
    requires StackRun(stacks, n, bits) && StackStep(stacks[|stacks| - 1], next) && |next| <= bits - 5
    ensures StackRun(stacks + [next], n, bits)
  {
    hide StackStep;
  }

  lemma StackRunStart(n: nat, bits: nat)
    requires bits >= 6
    ensures StackRun([[Range(0, n)]], n, bits)
  {}

  /** The partition loop: it ends with the range in short segments, and its stack never holds more
      than bits - 5 ranges: 11 for 16-bit positions and 27 for 32-bit ones. */
  method PartitionLoop<T(!new)>(a: array<T>, f: nat, l: nat, cmp: (T, T) -> bool, bits: nat)
    returns (ghost cuts: set<nat>, ghost stacks: seq<seq<Range>>)
    requires f < l <= a.Length && StrictWeakOrder(cmp) && bits >= 6 && l - f < Pow2(bits)
    modifies a
    ensures Segmented(a[..], f, l, cuts, cmp) && Permuted(old(a[..]), a[..], f, l)
    ensures StackRun(stacks, l - f, bits) && stacks != [] && stacks[|stacks| - 1] == []
  {
    hide *;
    ghost var n := l - f;
    cuts, stacks := {0, n}, [[Range(0, n)]];
    StackRunStart(n, bits);
    PermutedSelf(a[..], f, l);
    StackStart(n);
    CutsStart(a[..], f, l, cmp);
    var s := new Stack(bits);
    Pow2Monotone(0, bits);
    s.Emplace(0, l - f);
    assert s.Contents() == [Range(0, n)];
    while !s.IsEmpty()
      invariant s.Valid() && s.bits == bits && fresh(s) && fresh(s.data) && (s.data as object) != a
      invariant StackHolds(s.Contents(), cuts, n) && StackRun(stacks, n, bits)
      invariant stacks != [] && stacks[|stacks| - 1] == s.Contents()
      invariant CutsHold(a[..], f, l, cuts, cmp) && Permuted(old(a[..]), a[..], f, l)
      decreases n + 1 - |cuts|, |s.Contents()|
    {
      ghost var was := a[..];
      ghost var c := ProcessTop(a, f, l, s, cmp, cuts);
      PermutedTransitive(old(a[..]), was, a[..], f, l);
      cuts := cuts + {c};
      StackRunNext(stacks, n, bits, s.Contents());
      stacks := stacks + [s.Contents()];
    }
    StackEmpty(a[..], f, l, cuts, cmp);
  }

  method QuickSortImpl<T(!new)>(a: array<T>, f: nat, l: nat, cmp: (T, T) -> bool, bits: nat)
    requires f <= l <= a.Length && StrictWeakOrder(cmp) && bits >= 6 && l - f < Pow2(bits)
    modifies a
    ensures Sorted(a[..], f, l, cmp) && Permuted(old(a[..]), a[..], f, l)
  {
    hide *;
    PermutedSelf(a[..], f, l);
    SortedShort(a[..], f, cmp);
    if f == l {
      return;
    }
    ghost var cuts, stacks := PartitionLoop(a, f, l, cmp, bits);
    SegmentsBand(a[..], f, l, cuts, cmp);
    ghost var was := a[..];
    ghost var places := InsertionSort(a, f, l, cmp, 50);
    PermutedTransitive(old(a[..]), was, a[..], f, l);
  }

  /** 16-bit positions for up to 65535 elements, 32-bit ones below 2^32. */
  method QuickSort<T(!new)>(a: array<T>, f: nat, l: nat, cmp: (T, T) -> bool)
    requires f <= l <= a.Length && StrictWeakOrder(cmp) && l - f < 0x1_0000_0000
    modifies a
    ensures Sorted(a[..], f, l, cmp) && Permuted(old(a[..]), a[..], f, l)
  {
    Pow2At32();
    IndexLimit16();
    if l - f <= 0xffff {
      QuickSortImpl(a, f, l, cmp, 16);
    } else {
      QuickSortImpl(a, f, l, cmp, 32);
    }
  }

  lemma IndexLimit16()
    ensures Pow2(16) == 0x1_0000
  {
    hide *;
    Pow2Small();
    Pow2Up(11, 5);
  }
}
