// Building the field-support model: crossings, slices, merged intervals and bands.

module FieldBands {
  import opened FieldSupport

  const TOL := 0.01

  const COARSE := 1.0

  function Abs(x: real): real { if x < 0.0 then -x else x }

  // ---------------------------------------------------------------------------------------------
  // Crossings.

  function Halved(d: real, i: nat): real {
    if i == 0 then d else Halved(d, i - 1) / 2.0
  }

  function Doubled(c: real, i: nat): real
    decreases i
  {
    if i == 0 then c else Doubled(2.0 * c, i - 1)
  }

  lemma {:induction false} HalvedBound(d: real, c: real, i: nat)
    requires Abs(d) <= Doubled(c, i)
    ensures Abs(Halved(d, i)) <= c
    decreases i
  {
    if i > 0 {
      HalvedBound(d, 2.0 * c, i - 1);
    }
  }

  ghost predicate Between(a: real, x: real, b: real) { a <= x <= b || b <= x <= a }

  /** The ends a (not above the threshold) and b (above) still bracket a crossing of the field, inside the
      bracket they started from and the same way round. */
  ghost predicate Brackets(field: real -> real, rOut: real, rIn: real, threshold: real, a: real, b: real) {
    && field(a) <= threshold < field(b)
    && Between(rOut, a, rIn) && Between(rOut, b, rIn) && (a < b <==> rOut < rIn)
  }

  /** r is half way between two such ends, at most the tolerance apart when 60 halvings can reach it. */
  ghost predicate AtCrossing(field: real -> real, rOut: real, rIn: real, threshold: real, r: real) {
    exists a, b :: Brackets(field, rOut, rIn, threshold, a, b) && r == (a + b) / 2.0
                && (Abs(rOut - rIn) <= Doubled(TOL, 60) ==> Abs(a - b) <= TOL)
  }

  /** A crossing between one radius above the threshold and one not; they may come in either order. */
  method BisectCrossing(field: real -> real, rOut: real, rIn: real, threshold: real) returns (r: real)
    requires field(rOut) <= threshold < field(rIn)
    ensures AtCrossing(field, rOut, rIn, threshold, r)
    ensures if rOut < rIn then rOut < r < rIn else rIn < r < rOut
  {
    var outside, inside := rOut, rIn;
    var i := 0;
    while i < 60 && Abs(outside - inside) > TOL
      invariant 0 <= i <= 60 && outside - inside == Halved(rOut - rIn, i)
      invariant Brackets(field, rOut, rIn, threshold, outside, inside)
    {
      var middle := 0.5 * (outside + inside);
      if field(middle) > threshold {
        inside := middle;
      } else {
        outside := middle;
      }
      i := i + 1;
    }
    if i == 60 && Abs(rOut - rIn) <= Doubled(TOL, 60) {
      HalvedBound(rOut - rIn, TOL, 60);
    }
    r := 0.5 * (outside + inside);
    assert Brackets(field, rOut, rIn, threshold, outside, inside) && r == (outside + inside) / 2.0;
  }

  // ---------------------------------------------------------------------------------------------
  // One slice.

  ghost predicate In(iv: seq<Interval>, x: real) { exists k :: 0 <= k < |iv| && iv[k].lo <= x <= iv[k].hi }

  ghost predicate Increasing(grid: seq<real>) {
    |grid| > 0 && grid[0] >= 0.0 && forall i, j :: 0 <= i < j < |grid| ==> grid[i] < grid[j]
  }

  ghost predicate AllProper(iv: seq<Interval>) { forall k :: 0 <= k < |iv| ==> iv[k].lo <= iv[k].hi }

  // The intervals so far tell the first n grid radii apart: inside one exactly when above.
  ghost predicate Separates(iv: seq<Interval>, field: real -> real, grid: seq<real>, threshold: real, n: nat)
    requires n <= |grid|
  {
    forall i :: 0 <= i < n ==> (In(iv, grid[i]) <==> field(grid[i]) > threshold)
  }

  /** An interval may only end on the first or last grid radius or on a crossing between neighbouring ones. */
  ghost predicate Edge(field: real -> real, grid: seq<real>, threshold: real, x: real)
    requires |grid| > 0
  {
    || x == grid[0] || x == grid[|grid| - 1]
    || exists i :: 0 < i < |grid| && CrossesAt(field, grid, threshold, i, x)
  }

  ghost predicate CrossesAt(field: real -> real, grid: seq<real>, threshold: real, i: nat, x: real)
    requires 0 < i < |grid|
  {
    if field(grid[i]) > threshold then AtCrossing(field, grid[i - 1], grid[i], threshold, x)
    else AtCrossing(field, grid[i], grid[i - 1], threshold, x)
  }

  ghost predicate AllEdges(iv: seq<Interval>, field: real -> real, grid: seq<real>, threshold: real)
    requires |grid| > 0
  {
    forall k :: 0 <= k < |iv| ==> Edge(field, grid, threshold, iv[k].lo) && Edge(field, grid, threshold, iv[k].hi)
  }

  /** Every interval holds a grid radius. */
  ghost predicate OnGrid(iv: seq<Interval>, grid: seq<real>) {
    forall k :: 0 <= k < |iv| ==> HoldsGrid(iv[k], grid)
  }

  ghost predicate HoldsGrid(c: Interval, grid: seq<real>) {
    exists i :: 0 <= i < |grid| && c.lo <= grid[i] <= c.hi
  }

  lemma OneMoreOnGrid(iv: seq<Interval>, c: Interval, grid: seq<real>, i: nat)
    requires OnGrid(iv, grid) && i < |grid| && c.lo <= grid[i] <= c.hi
    ensures OnGrid(iv + [c], grid)
  {
    assert HoldsGrid(c, grid);
  }

  /** What a slice says: it tells exactly which grid radii are above the threshold, each of its intervals
      holds one, and ends only on crossings. */
  ghost predicate SliceRight(iv: seq<Interval>, field: real -> real, grid: seq<real>, threshold: real)
    requires |grid| > 0
  {
    && AllProper(iv) && Separates(iv, field, grid, threshold, |grid|)
    && AllEdges(iv, field, grid, threshold) && OnGrid(iv, grid)
  }

  ghost predicate Before(iv: seq<Interval>, x: real) { forall k :: 0 <= k < |iv| ==> iv[k].hi < x }

  /** What holds after the first i grid radii; while an interval is open, lo is where it starts. */
  ghost predicate SoFar(iv: seq<Interval>, open: bool, lo: real, field: real -> real, grid: seq<real>, threshold: real,
                        i: nat)
    requires |grid| > 0 && i <= |grid|
  {
    && AllProper(iv) && AllEdges(iv, field, grid, threshold) && OnGrid(iv, grid)
    && if open then
         && i > 0 && field(grid[i - 1]) > threshold && lo <= grid[i - 1]
         && Before(iv, lo) && Edge(field, grid, threshold, lo)
         && Separates(iv + [Interval(lo, grid[i - 1])], field, grid, threshold, i)
       else
         && Separates(iv, field, grid, threshold, i)
         && if i > 0 then field(grid[i - 1]) <= threshold && Before(iv, grid[i - 1]) else iv == []
  }

  /** The intervals of one threshold at one z: a grid radius lies in one exactly when the field there
      exceeds the threshold, and an interval ends inside the grid only on a crossing. */
  method SliceAt(field: real -> real, grid: seq<real>, threshold: real) returns (iv: seq<Interval>)
    requires Increasing(grid)
    ensures SliceRight(iv, field, grid, threshold)
  {
    iv := [];
    var open, current := false, Interval(0.0, 0.0);
    assert SoFar([], false, 0.0, field, grid, threshold, 0);
    hide SoFar, AtCrossing, SliceRight;
    for i := 0 to |grid|
      invariant SoFar(iv, open, current.lo, field, grid, threshold, i)
    {
      var above := field(grid[i]) > threshold;
      if above && !open {
        var lo := grid[i];
        if i > 0 {
          LastBelow(iv, current.lo, field, grid, threshold, i);
          var crossing := BisectCrossing(field, grid[i - 1], grid[i], threshold);
          lo := Max(0.0, crossing);
        }
        OpenKeeps(iv, current.lo, field, grid, threshold, i, lo);
        current := current.(lo := lo);
        open := true;
      } else if !above && open {
        LastAbove(iv, current.lo, field, grid, threshold, i);
        var crossing := BisectCrossing(field, grid[i], grid[i - 1], threshold);
        current := current.(hi := crossing);
        CloseKeeps(iv, field, grid, threshold, i, current);
        iv := iv + [current];
        open := false;
      } else if open {
        StretchKeeps(iv, current.lo, field, grid, threshold, i);
      } else {
        SkipKeeps(iv, current.lo, field, grid, threshold, i);
      }
    }
    SliceDone(iv, open, current.lo, field, grid, threshold);
    if open {
      iv := iv + [Interval(current.lo, grid[|grid| - 1])];
    }
  }

  lemma SliceDone(iv: seq<Interval>, open: bool, lo: real, field: real -> real, grid: seq<real>, threshold: real)
    requires Increasing(grid) && SoFar(iv, open, lo, field, grid, threshold, |grid|)
    ensures SliceRight(if open then iv + [Interval(lo, grid[|grid| - 1])] else iv, field, grid, threshold)
  {
    hide AtCrossing, CrossesAt, In, HoldsGrid;
    if open {
      assert Edge(field, grid, threshold, grid[|grid| - 1]);
      OneMoreOnGrid(iv, Interval(lo, grid[|grid| - 1]), grid, |grid| - 1);
    }
  }

  lemma LastBelow(iv: seq<Interval>, lo: real, field: real -> real, grid: seq<real>, threshold: real, i: nat)
    requires 0 < i <= |grid| && SoFar(iv, false, lo, field, grid, threshold, i)
    ensures field(grid[i - 1]) <= threshold
  {}

  lemma LastAbove(iv: seq<Interval>, lo: real, field: real -> real, grid: seq<real>, threshold: real, i: nat)
    requires |grid| > 0 && i <= |grid| && SoFar(iv, true, lo, field, grid, threshold, i)
    ensures i > 0 && field(grid[i - 1]) > threshold
  {}

  lemma InAppended(iv: seq<Interval>, c: Interval, x: real)
    ensures In(iv + [c], x) <==> In(iv, x) || c.lo <= x <= c.hi
  {
    var more := iv + [c];
    if In(iv, x) {
      var k :| 0 <= k < |iv| && iv[k].lo <= x <= iv[k].hi;
      assert more[k] == iv[k];
    }
    if c.lo <= x <= c.hi {
      assert more[|iv|] == c;
    }
  }

  lemma OpenKeeps(iv: seq<Interval>, was: real, field: real -> real, grid: seq<real>, threshold: real, i: nat, lo: real)
    requires Increasing(grid) && i < |grid| && field(grid[i]) > threshold
             && SoFar(iv, false, was, field, grid, threshold, i)
    requires if i > 0 then grid[i - 1] < lo <= grid[i] && CrossesAt(field, grid, threshold, i, lo) else lo == grid[i]
    ensures SoFar(iv, true, lo, field, grid, threshold, i + 1)
  {
    forall k | 0 <= k < i + 1
      ensures In(iv + [Interval(lo, grid[i])], grid[k]) <==> field(grid[k]) > threshold
    {
      InAppended(iv, Interval(lo, grid[i]), grid[k]);
    }
  }

  lemma StretchKeeps(iv: seq<Interval>, lo: real, field: real -> real, grid: seq<real>, threshold: real, i: nat)
    requires Increasing(grid) && i < |grid| && field(grid[i]) > threshold
             && SoFar(iv, true, lo, field, grid, threshold, i)
    ensures SoFar(iv, true, lo, field, grid, threshold, i + 1)
  {
    forall k | 0 <= k < i + 1
      ensures In(iv + [Interval(lo, grid[i])], grid[k]) <==> field(grid[k]) > threshold
    {
      InAppended(iv, Interval(lo, grid[i]), grid[k]);
      InAppended(iv, Interval(lo, grid[i - 1]), grid[k]);
    }
  }

  lemma CloseKeeps(iv: seq<Interval>, field: real -> real, grid: seq<real>, threshold: real, i: nat, c: Interval)
    requires Increasing(grid) && 0 < i < |grid| && field(grid[i]) <= threshold
    requires SoFar(iv, true, c.lo, field, grid, threshold, i)
    requires grid[i - 1] < c.hi < grid[i] && CrossesAt(field, grid, threshold, i, c.hi)
    ensures SoFar(iv + [c], false, c.lo, field, grid, threshold, i + 1)
  {
    OneMoreOnGrid(iv, c, grid, i - 1);
    forall k | 0 <= k < i + 1
      ensures In(iv + [c], grid[k]) <==> field(grid[k]) > threshold
    {
      InAppended(iv, c, grid[k]);
      InAppended(iv, Interval(c.lo, grid[i - 1]), grid[k]);
    }
  }

  lemma SkipKeeps(iv: seq<Interval>, lo: real, field: real -> real, grid: seq<real>, threshold: real, i: nat)
    requires Increasing(grid) && i < |grid| && field(grid[i]) <= threshold
             && SoFar(iv, false, lo, field, grid, threshold, i)
    ensures SoFar(iv, false, lo, field, grid, threshold, i + 1)
  {}

  // ---------------------------------------------------------------------------------------------
  // Merging.

  /** Within 1e-9 above one of the intervals. */
  ghost predicate Near(iv: seq<Interval>, x: real) { exists k :: 0 <= k < |iv| && iv[k].lo <= x <= iv[k].hi + EPS }

  ghost predicate Apart(iv: seq<Interval>) { forall j, k :: 0 <= j < k < |iv| ==> iv[j].hi + EPS < iv[k].lo }

  ghost predicate EndsOne(iv: seq<Interval>, h: real) { exists j :: 0 <= j < |iv| && iv[j].hi == h }

  ghost predicate EdgesFrom(r: seq<Interval>, iv: seq<Interval>) {
    forall k :: 0 <= k < |r| ==> EndsOne(iv, r[k].hi)
  }

  /** r holds every point of iv, nothing that is not within 1e-9 of iv, and ends where intervals of iv end. */
  ghost predicate Hull(r: seq<Interval>, iv: seq<Interval>) {
    && AllProper(r) && EdgesFrom(r, iv)
    && (forall x :: In(iv, x) ==> In(r, x))
    && (forall x :: In(r, x) ==> Near(iv, x))
  }

  lemma SameIn(a: seq<Interval>, b: seq<Interval>)
    requires multiset(a) == multiset(b)
    ensures AllProper(a) ==> AllProper(b)
    ensures forall x :: (In(a, x) <==> In(b, x)) && (Near(a, x) <==> Near(b, x))
    ensures forall r: seq<Interval> :: EdgesFrom(r, a) ==> EdgesFrom(r, b)
  {
    SameSegments(a, b);
    forall x
      ensures (In(a, x) <==> In(b, x)) && (Near(a, x) <==> Near(b, x))
    {
      if In(a, x) { var k :| 0 <= k < |a| && a[k].lo <= x <= a[k].hi; assert a[k] in b; }
      if In(b, x) { var k :| 0 <= k < |b| && b[k].lo <= x <= b[k].hi; assert b[k] in a; }
      if Near(a, x) { var k :| 0 <= k < |a| && a[k].lo <= x <= a[k].hi + EPS; assert a[k] in b; }
      if Near(b, x) { var k :| 0 <= k < |b| && b[k].lo <= x <= b[k].hi + EPS; assert b[k] in a; }
    }
    if AllProper(a) {
      forall k | 0 <= k < |b|
        ensures b[k].lo <= b[k].hi
      {
        assert b[k] in a;
      }
    }
    forall r: seq<Interval> | EdgesFrom(r, a)
      ensures EdgesFrom(r, b)
    {
      forall k | 0 <= k < |r|
        ensures EndsOne(b, r[k].hi)
      {
        assert EndsOne(a, r[k].hi);
        var j :| 0 <= j < |a| && a[j].hi == r[k].hi;
        assert a[j] in b;
      }
    }
  }

  // The last interval grows: what it gains is in the new one or in a gap of at most 1e-9.
  lemma GrowKeeps(r: seq<Interval>, iv: seq<Interval>, c: Interval)
    requires |r| > 0 && AllProper(iv) && Hull(r, iv) && c.lo <= c.hi && c.lo <= r[|r| - 1].hi + EPS
             && r[|r| - 1].lo <= c.lo
    ensures var last := r[|r| - 1];
            Hull(r[..|r| - 1] + [Interval(last.lo, Max(last.hi, c.hi))], iv + [c])
  {
    var n := |r| - 1;
    var last := r[n];
    var init, more := r[..n], iv + [c];
    var wide := Interval(last.lo, Max(last.hi, c.hi));
    var g := init + [wide];
    assert r == init + [last];
    forall k | 0 <= k < |g|
      ensures EndsOne(more, g[k].hi)
    {
      if k == n && wide.hi == c.hi {
        assert more[|iv|] == c;
      } else {
        assert EndsOne(iv, r[k].hi);
        var j :| 0 <= j < |iv| && iv[j].hi == r[k].hi;
        assert more[j] == iv[j];
      }
    }
    forall x
      ensures In(more, x) ==> In(g, x)
      ensures In(g, x) ==> Near(more, x)
    {
      InAppended(iv, c, x);
      InAppended(init, last, x);
      InAppended(init, wide, x);
      NearAppended(iv, c, x);
      if last.hi < x < c.lo {
        assert EndsOne(iv, r[n].hi);
        var j :| 0 <= j < |iv| && iv[j].hi == last.hi;
        assert iv[j].lo <= x <= iv[j].hi + EPS;
      }
    }
  }

  lemma NearAppended(iv: seq<Interval>, c: Interval, x: real)
    ensures Near(iv + [c], x) <==> Near(iv, x) || c.lo <= x <= c.hi + EPS
  {
    var more := iv + [c];
    if Near(iv, x) {
      var k :| 0 <= k < |iv| && iv[k].lo <= x <= iv[k].hi + EPS;
      assert more[k] == iv[k];
    }
    if c.lo <= x <= c.hi + EPS {
      assert more[|iv|] == c;
    }
  }

  // A new interval clear of the last one.
  lemma AddKeeps(r: seq<Interval>, iv: seq<Interval>, c: Interval)
    requires Hull(r, iv) && c.lo <= c.hi
    ensures Hull(r + [c], iv + [c])
  {
    var g, more := r + [c], iv + [c];
    forall k | 0 <= k < |g|
      ensures EndsOne(more, g[k].hi)
    {
      if k < |r| {
        assert EndsOne(iv, r[k].hi);
        var j :| 0 <= j < |iv| && iv[j].hi == r[k].hi;
        assert more[j] == iv[j] && g[k] == r[k];
      } else {
        assert more[|iv|] == c && g[k] == c;
      }
    }
    assert EdgesFrom(g, more);
    forall x
      ensures In(more, x) ==> In(g, x)
      ensures In(g, x) ==> Near(more, x)
    {
      InAppended(iv, c, x);
      InAppended(r, c, x);
      NearAppended(iv, c, x);
    }
  }

  lemma HullOne(c: Interval)
    requires c.lo <= c.hi
    ensures Hull([c], [c])
  {
    forall x
      ensures In([c], x) ==> Near([c], x)
    {
      if In([c], x) {
        assert [c][0].lo <= x <= [c][0].hi + EPS;
      }
    }
    assert EndsOne([c], [c][0].hi);
  }

  /** Merging loses nothing, adds nothing but gaps of at most 1e-9, and leaves larger gaps open. */
  method MergeIntervals(into0: seq<Interval>, from: seq<Interval>) returns (into: seq<Interval>)
    requires AllProper(into0 + from)
    ensures Hull(into, into0 + from) && Apart(into)
    ensures |into| == 0 <==> |into0| == |from| == 0
  {
    into := into0 + from;
    if into == [] {
      return;
    }
    var s := SortByLo(into);
    SameIn(into, s);
    SameIn(s, into);
    SortedProper(s);
    assert s != [] by { SameLength(into, s); }
    MergeStart(s);
    var merged := [s[0]];
    hide *;
    for i := 1 to |s|
      invariant MergeState(merged, s, i)
    {
      MergeStep(merged, s, i);
      if s[i].lo <= merged[|merged| - 1].hi + EPS {
        merged := merged[..|merged| - 1] + [Interval(merged[|merged| - 1].lo, Max(merged[|merged| - 1].hi, s[i].hi))];
      } else {
        merged := merged + [s[i]];
      }
    }
    MergeEnd(merged, s, into);
    into := merged;
  }

  // The first i of the sorted intervals have been merged.
  ghost predicate MergeState(merged: seq<Interval>, s: seq<Interval>, i: nat) {
    && i <= |s| && SortedByLo(s) && AllProper(s)
    && |merged| > 0 && Hull(merged, s[..i]) && Apart(merged) && LastBefore(merged, s, i)
  }

  lemma MergeStart(s: seq<Interval>)
    requires SortedByLo(s) && AllProper(s) && s != []
    ensures MergeState([s[0]], s, 1)
  {
    HullOne(s[0]);
    assert s[..1] == [s[0]];
  }

  lemma MergeStep(merged: seq<Interval>, s: seq<Interval>, i: nat)
    requires MergeState(merged, s, i) && i < |s|
    ensures |merged| > 0
    ensures var last := merged[|merged| - 1];
            if s[i].lo <= last.hi + EPS
            then MergeState(merged[..|merged| - 1] + [Interval(last.lo, Max(last.hi, s[i].hi))], s, i + 1)
            else MergeState(merged + [s[i]], s, i + 1)
  {
    assert s[..i + 1] == s[..i] + [s[i]];
    SortedProper(s);
    var last := merged[|merged| - 1];
    hide Apart;
    if s[i].lo <= last.hi + EPS {
      GrowKeeps(merged, s[..i], s[i]);
      GrowApart(merged, s, i);
    } else {
      AddKeeps(merged, s[..i], s[i]);
      AddApart(merged, s, i);
    }
  }

  lemma MergeEnd(merged: seq<Interval>, s: seq<Interval>, into: seq<Interval>)
    requires MergeState(merged, s, |s|) && multiset(s) == multiset(into)
    ensures merged != [] && Hull(merged, into) && Apart(merged)
  {
    assert s[..|s|] == s;
    HullSame(merged, s, into);
  }

  // The last merged interval starts no later than what is still to come.
  ghost predicate LastBefore(merged: seq<Interval>, s: seq<Interval>, i: nat) {
    |merged| > 0 && forall k :: i <= k < |s| ==> merged[|merged| - 1].lo <= s[k].lo
  }

  lemma SortedProper(s: seq<Interval>)
    requires AllProper(s)
    ensures forall i :: 0 <= i <= |s| ==> AllProper(s[..i])
  {}

  lemma SameLength(a: seq<Interval>, b: seq<Interval>)
    requires multiset(a) == multiset(b)
    ensures |a| == |b|
  {
    assert |multiset(a)| == |a| && |multiset(b)| == |b|;
  }

  lemma HullSame(r: seq<Interval>, s: seq<Interval>, iv: seq<Interval>)
    requires Hull(r, s) && multiset(s) == multiset(iv)
    ensures Hull(r, iv)
  {
    SameIn(s, iv);
  }

  lemma GrowApart(merged: seq<Interval>, s: seq<Interval>, i: nat)
    requires |merged| > 0 && Apart(merged) && LastBefore(merged, s, i) && i < |s|
    ensures var last := merged[|merged| - 1];
            var g := merged[..|merged| - 1] + [Interval(last.lo, Max(last.hi, s[i].hi))];
            Apart(g) && LastBefore(g, s, i + 1)
  {}

  lemma AddApart(merged: seq<Interval>, s: seq<Interval>, i: nat)
    requires |merged| > 0 && Apart(merged) && AllProper(merged) && SortedByLo(s) && i < |s|
    requires s[i].lo > merged[|merged| - 1].hi + EPS
    ensures Apart(merged + [s[i]]) && LastBefore(merged + [s[i]], s, i + 1)
  {
    var n := |merged| - 1;
    forall j | 0 <= j <= n
      ensures merged[j].hi + EPS < s[i].lo
    {
      if j < n {
        assert merged[j].hi + EPS < merged[n].lo;
      }
    }
  }

  // ---------------------------------------------------------------------------------------------
  // Bands.

  predicate SameStructure(a: seq<Interval>, b: seq<Interval>) {
    && |a| == |b|
    && forall i :: 0 <= i < |a| ==> Abs(a[i].lo - b[i].lo) <= 0.02 && Abs(a[i].hi - b[i].hi) <= 0.02
  }

  /** Each slice of a run is like its neighbour, and yet the first need not be like the last. */
  lemma SameStructureNotTransitive()
    ensures var a, b, c := [Interval(1.0, 2.0)], [Interval(1.0, 2.02)], [Interval(1.0, 2.04)];
            SameStructure(a, b) && SameStructure(b, c) && !SameStructure(a, c)
    ensures !SameStructure([Interval(1.0, 2.0)], [Interval(1.021, 2.0)])
  {
    var a, b, c := [Interval(1.0, 2.0)], [Interval(1.0, 2.02)], [Interval(1.0, 2.04)];
    assert Abs(a[0].hi - c[0].hi) > 0.02;
    var d := [Interval(1.021, 2.0)];
    assert Abs(a[0].lo - d[0].lo) > 0.02;
  }

  /** Along a run every edge drifts by at most 0.02 a slice. */
  lemma {:induction false} RunDrift(ivs: seq<seq<Interval>>, i: nat, j: nat, k: nat)
    requires i <= j < |ivs| && Alike(ivs, i, j) && k < |ivs[i]|
    ensures |ivs[j]| == |ivs[i]|
    ensures Abs(ivs[i][k].lo - ivs[j][k].lo) <= 0.02 * (j - i) as real
    ensures Abs(ivs[i][k].hi - ivs[j][k].hi) <= 0.02 * (j - i) as real
  {
    if i < j {
      RunDrift(ivs, i, j - 1, k);
      assert LikeNext(ivs, j - 1);
    }
  }

  /** Slices at increasing z, each with its intervals. */
  ghost predicate Slices(zs: seq<real>, ivs: seq<seq<Interval>>) {
    && |zs| == |ivs|
    && (forall i, j :: 0 <= i < j < |zs| ==> zs[i] < zs[j])
    && ProperSlices(ivs)
  }

  // The cell of a slice reaches half way to its neighbours, and half a coarse step beyond the ends.

  function CellLo(zs: seq<real>, i: nat): real
    requires i < |zs|
  {
    var zPrev := if i == 0 then zs[i] - COARSE else zs[i - 1];
    0.5 * (zPrev + zs[i])
  }

  function CellHi(zs: seq<real>, i: nat): real
    requires i < |zs|
  {
    var zNext := if i + 1 == |zs| then zs[i] + COARSE else zs[i + 1];
    0.5 * (zs[i] + zNext)
  }

  lemma {:induction false} CellsOrdered(zs: seq<real>, i: nat, k: nat)
    requires i <= k < |zs| && forall x, y :: 0 <= x < y < |zs| ==> zs[x] < zs[y]
    ensures CellLo(zs, i) <= CellLo(zs, k) && CellHi(zs, i) <= CellHi(zs, k)
    ensures CellLo(zs, k) <= CellHi(zs, k) && (i < k ==> CellHi(zs, i) <= CellLo(zs, k))
  {
    if i < k {
      CellsOrdered(zs, i, k - 1);
    }
  }

  /** The cells leave no holes, and a z of theirs is in the cell of a slice exactly when no slice is nearer. */
  lemma NearestSlice(zs: seq<real>, i: nat, z: real)
    requires i < |zs| && forall x, y :: 0 <= x < y < |zs| ==> zs[x] < zs[y]
    requires CellLo(zs, 0) <= z <= CellHi(zs, |zs| - 1)
    ensures CellLo(zs, i) <= z <= CellHi(zs, i) <==> forall k :: 0 <= k < |zs| ==> Abs(z - zs[i]) <= Abs(z - zs[k])
  {
    if CellLo(zs, i) <= z <= CellHi(zs, i) {
      forall k | 0 <= k < |zs|
        ensures Abs(z - zs[i]) <= Abs(z - zs[k])
      {
        assert k < i ==> zs[k] <= zs[i - 1];
        assert k > i ==> zs[k] >= zs[i + 1];
      }
    } else if z < CellLo(zs, i) {
      assert i > 0;
      assert Abs(z - zs[i]) > Abs(z - zs[i - 1]);
    } else {
      assert i + 1 < |zs|;
      assert Abs(z - zs[i]) > Abs(z - zs[i + 1]);
    }
  }

  // All intervals of the slices i to j - 1.
  function Concat(ivs: seq<seq<Interval>>, i: nat, j: nat): seq<Interval>
    requires i <= j <= |ivs|
  {
    if i == j then [] else Concat(ivs, i, j - 1) + ivs[j - 1]
  }

  lemma {:induction false} ConcatIn(ivs: seq<seq<Interval>>, i: nat, j: nat, k: nat, x: real)
    requires i <= k < j <= |ivs|
    ensures In(ivs[k], x) ==> In(Concat(ivs, i, j), x)
  {
    if In(ivs[k], x) {
      if k < j - 1 {
        ConcatIn(ivs, i, j - 1, k, x);
        InBoth(Concat(ivs, i, j - 1), ivs[j - 1], x);
      } else {
        InBoth(Concat(ivs, i, j - 1), ivs[j - 1], x);
      }
    }
  }

  lemma {:induction false} ConcatNear(ivs: seq<seq<Interval>>, i: nat, j: nat, x: real) returns (k: nat)
    requires i <= j <= |ivs| && Near(Concat(ivs, i, j), x)
    ensures i <= k < j && Near(ivs[k], x)
  {
    var before := Concat(ivs, i, j - 1);
    InBoth(before, ivs[j - 1], x);
    if Near(before, x) {
      k := ConcatNear(ivs, i, j - 1, x);
    } else {
      k := j - 1;
    }
  }

  lemma InBoth(a: seq<Interval>, b: seq<Interval>, x: real)
    ensures In(a + b, x) <==> In(a, x) || In(b, x)
    ensures Near(a + b, x) <==> Near(a, x) || Near(b, x)
  {
    var c := a + b;
    if In(a, x) { var k :| 0 <= k < |a| && a[k].lo <= x <= a[k].hi; assert c[k] == a[k]; }
    if In(b, x) { var k :| 0 <= k < |b| && b[k].lo <= x <= b[k].hi; assert c[|a| + k] == b[k]; }
    if Near(a, x) { var k :| 0 <= k < |a| && a[k].lo <= x <= a[k].hi + EPS; assert c[k] == a[k]; }
    if Near(b, x) { var k :| 0 <= k < |b| && b[k].lo <= x <= b[k].hi + EPS; assert c[|a| + k] == b[k]; }
  }

  lemma EndsBoth(a: seq<Interval>, b: seq<Interval>, h: real)
    ensures EndsOne(a + b, h) <==> EndsOne(a, h) || EndsOne(b, h)
  {
    var c := a + b;
    if EndsOne(a, h) { var k :| 0 <= k < |a| && a[k].hi == h; assert c[k] == a[k]; }
    if EndsOne(b, h) { var k :| 0 <= k < |b| && b[k].hi == h; assert c[|a| + k] == b[k]; }
  }

  /** Merging into what has been merged already stays within 1e-9 of the original intervals. */
  lemma HullTwice(r: seq<Interval>, m: seq<Interval>, a: seq<Interval>, b: seq<Interval>)
    requires Hull(m, a) && Hull(r, m + b) && AllProper(a) && AllProper(b)
    ensures Hull(r, a + b)
  {
    forall k | 0 <= k < |r|
      ensures EndsOne(a + b, r[k].hi)
    {
      assert EndsOne(m + b, r[k].hi);
      EndsBoth(m, b, r[k].hi);
      EndsBoth(a, b, r[k].hi);
    }
    forall x
      ensures In(a + b, x) ==> In(r, x)
      ensures In(r, x) ==> Near(a + b, x)
    {
      InBoth(a, b, x);
      InBoth(m, b, x);
      if Near(m, x) {
        NearMerged(m, a, x);
      }
    }
  }

  lemma NearMerged(m: seq<Interval>, a: seq<Interval>, x: real)
    requires Hull(m, a) && AllProper(a) && Near(m, x)
    ensures Near(a, x)
  {
    var k :| 0 <= k < |m| && m[k].lo <= x <= m[k].hi + EPS;
    if x <= m[k].hi {
      assert In(m, x);
    } else {
      assert EndsOne(a, m[k].hi);
      var j :| 0 <= j < |a| && a[j].hi == m[k].hi;
      assert a[j].lo <= x <= a[j].hi + EPS;
    }
  }

  /** A longest run of slices, each like the next. */
  ghost predicate WholeRun(ivs: seq<seq<Interval>>, i: nat, j: nat)
    requires i <= j < |ivs|
  {
    && Alike(ivs, i, j) && StartsRun(ivs, i)
    && (j + 1 == |ivs| || !LikeNext(ivs, j))
  }

  ghost predicate StartsRun(ivs: seq<seq<Interval>>, i: nat)
    requires i <= |ivs|
  {
    i == 0 || i == |ivs| || !LikeNext(ivs, i - 1)
  }

  /** A band made of a whole run of slices i to j, all of them populated. */
  ghost predicate RunBand(b: Band, zs: seq<real>, ivs: seq<seq<Interval>>, i: nat, j: nat)
    requires |zs| == |ivs|
  {
    && i <= j < |zs| && b.iv != [] && Hull(b.iv, Concat(ivs, i, j + 1))
    && b.zlo == CellLo(zs, i) - 0.5 * COARSE && b.zhi == CellHi(zs, j) + 0.5 * COARSE
    && WholeRun(ivs, i, j) && forall k :: i <= k <= j ==> ivs[k] != []
  }

  ghost predicate FromRun(b: Band, zs: seq<real>, ivs: seq<seq<Interval>>)
    requires |zs| == |ivs|
  {
    exists i: nat, j: nat :: RunBand(b, zs, ivs, i, j)
  }

  ghost predicate InRun(bands: seq<Band>, zs: seq<real>, ivs: seq<seq<Interval>>, k: nat)
    requires |zs| == |ivs|
  {
    exists b, i: nat, j: nat :: b in bands && i <= k <= j && RunBand(b, zs, ivs, i, j)
  }

  lemma ProperBoth(a: seq<Interval>, b: seq<Interval>)
    requires AllProper(a) && AllProper(b)
    ensures AllProper(a + b)
  {}

  /** The merged intervals of one run. */
  method MergeRun(ivs: seq<seq<Interval>>, i: nat, j: nat) returns (iv: seq<Interval>)
    requires i <= j < |ivs| && ProperSlices(ivs) && Alike(ivs, i, j)
    ensures Hull(iv, Concat(ivs, i, j + 1))
    ensures |iv| == 0 <==> |ivs[i]| == 0
  {
    iv := [];
    NothingMerged(ivs, i);
    for k := i to j + 1
      invariant MergedRun(iv, ivs, i, k)
    {
      RunProper(iv, ivs, i, k);
      RunAlike(ivs, i, j, k);
      var m := MergeIntervals(iv, ivs[k]);
      RunNext(m, iv, ivs, i, k);
      iv := m;
    }
    RunHull(iv, ivs, i, j + 1);
  }

  ghost predicate ProperSlices(ivs: seq<seq<Interval>>) { forall k :: 0 <= k < |ivs| ==> AllProper(ivs[k]) }

  ghost predicate Alike(ivs: seq<seq<Interval>>, i: nat, j: nat)
    requires i <= j < |ivs|
  {
    forall k :: i <= k < j ==> LikeNext(ivs, k)
  }

  predicate LikeNext(ivs: seq<seq<Interval>>, k: nat)
    requires k + 1 < |ivs|
  {
    SameStructure(ivs[k], ivs[k + 1])
  }

  ghost predicate MergedRun(iv: seq<Interval>, ivs: seq<seq<Interval>>, i: nat, k: nat)
    requires i <= k <= |ivs|
  {
    && Hull(iv, Concat(ivs, i, k)) && AllProper(Concat(ivs, i, k))
    && (|iv| == 0 <==> k == i || |ivs[i]| == 0)
  }

  lemma NothingMerged(ivs: seq<seq<Interval>>, i: nat)
    requires i <= |ivs|
    ensures MergedRun([], ivs, i, i)
  {}

  lemma RunHull(iv: seq<Interval>, ivs: seq<seq<Interval>>, i: nat, k: nat)
    requires i < k <= |ivs| && MergedRun(iv, ivs, i, k)
    ensures Hull(iv, Concat(ivs, i, k)) && (|iv| == 0 <==> |ivs[i]| == 0)
  {}

  lemma RunProper(iv: seq<Interval>, ivs: seq<seq<Interval>>, i: nat, k: nat)
    requires i <= k < |ivs| && MergedRun(iv, ivs, i, k) && ProperSlices(ivs)
    ensures AllProper(ivs[k]) && AllProper(iv + ivs[k])
  {
    ProperBoth(iv, ivs[k]);
  }

  lemma RunNext(m: seq<Interval>, iv: seq<Interval>, ivs: seq<seq<Interval>>, i: nat, k: nat)
    requires i <= k < |ivs| && MergedRun(iv, ivs, i, k) && AllProper(ivs[k]) && Hull(m, iv + ivs[k])
    requires (|m| == 0 <==> |iv| == |ivs[k]| == 0) && (|ivs[k]| == 0 <==> |ivs[i]| == 0)
    ensures MergedRun(m, ivs, i, k + 1)
  {
    hide Hull, AllProper;
    HullTwice(m, iv, Concat(ivs, i, k), ivs[k]);
    ProperBoth(Concat(ivs, i, k), ivs[k]);
  }

  lemma {:induction false} RunAlike(ivs: seq<seq<Interval>>, i: nat, j: nat, k: nat)
    requires i <= k <= j < |ivs| && Alike(ivs, i, j)
    ensures |ivs[k]| == 0 <==> |ivs[i]| == 0
  {
    if i < k {
      RunAlike(ivs, i, j, k - 1);
      assert LikeNext(ivs, k - 1);
    }
  }

  /** The last slice of the run that starts at i. */
  method RunEnd(ivs: seq<seq<Interval>>, i: nat) returns (j: nat)
    requires i < |ivs| && StartsRun(ivs, i)
    ensures i <= j < |ivs| && WholeRun(ivs, i, j) && StartsRun(ivs, j + 1)
  {
    hide SameStructure;
    j := i;
    while j + 1 < |ivs| && SameStructure(ivs[j], ivs[j + 1])
      invariant i <= j < |ivs|
      invariant Alike(ivs, i, j)
    {
      j := j + 1;
    }
  }

  /** The slices below i are in bands; every band is made of a whole run. */
  ghost predicate BandsUpTo(bands: seq<Band>, zs: seq<real>, ivs: seq<seq<Interval>>, i: nat)
    requires |zs| == |ivs| && i <= |zs|
  {
    && (forall b :: b in bands ==> FromRun(b, zs, ivs))
    && (forall k :: 0 <= k < i && ivs[k] != [] ==> InRun(bands, zs, ivs, k))
  }

  function BandOf(zs: seq<real>, i: nat, j: nat, iv: seq<Interval>): Band
    requires i <= j < |zs|
  {
    Band(CellLo(zs, i) - 0.5 * COARSE, CellHi(zs, j) + 0.5 * COARSE, iv)
  }

  lemma BandsStart(zs: seq<real>, ivs: seq<seq<Interval>>)
    requires Slices(zs, ivs)
    ensures |zs| == |ivs| && ProperSlices(ivs) && StartsRun(ivs, 0) && BandsUpTo([], zs, ivs, 0)
  {}

  lemma BandsSkip(bands: seq<Band>, zs: seq<real>, ivs: seq<seq<Interval>>, i: nat, j: nat)
    requires |zs| == |ivs| && i <= j < |zs| && BandsUpTo(bands, zs, ivs, i) && Alike(ivs, i, j) && ivs[i] == []
    ensures BandsUpTo(bands, zs, ivs, j + 1)
  {
    hide Alike, FromRun, InRun;
    forall k | i <= k <= j
      ensures ivs[k] == []
    {
      RunAlike(ivs, i, j, k);
    }
  }

  lemma BandsAdd(bands: seq<Band>, zs: seq<real>, ivs: seq<seq<Interval>>, i: nat, j: nat, iv: seq<Interval>)
    requires |zs| == |ivs| && i <= j < |zs| && BandsUpTo(bands, zs, ivs, i) && WholeRun(ivs, i, j)
    requires Hull(iv, Concat(ivs, i, j + 1)) && iv != [] && ivs[i] != []
    ensures BandsUpTo(bands + [BandOf(zs, i, j, iv)], zs, ivs, j + 1)
  {
    hide WholeRun, Hull, Concat, RunBand, FromRun, InRun;
    RunBandIntro(BandOf(zs, i, j, iv), zs, ivs, i, j);
    RunAdded(bands, zs, ivs, i, j, BandOf(zs, i, j, iv));
  }

  /** As many consecutive slices of like structure as there are become one band. */
  method BuildBands(zs: seq<real>, ivs: seq<seq<Interval>>) returns (bands: seq<Band>)
    requires Slices(zs, ivs)
    ensures BandsUpTo(bands, zs, ivs, |zs|)
  {
    bands := [];
    var i := 0;
    hide *;
    BandsStart(zs, ivs);
    while i < |zs|
      invariant 0 <= i <= |zs| && StartsRun(ivs, i) && BandsUpTo(bands, zs, ivs, i)
    {
      var j := RunEnd(ivs, i);
      RunIsAlike(ivs, i, j);
      var iv := MergeRun(ivs, i, j);
      if iv != [] {
        BandsAdd(bands, zs, ivs, i, j, iv);
        bands := bands + [BandOf(zs, i, j, iv)];
      } else {
        BandsSkip(bands, zs, ivs, i, j);
      }
      i := j + 1;
    }
  }

  lemma RunIsAlike(ivs: seq<seq<Interval>>, i: nat, j: nat)
    requires i <= j < |ivs| && WholeRun(ivs, i, j)
    ensures Alike(ivs, i, j)
  {}

  lemma RunBandIntro(b: Band, zs: seq<real>, ivs: seq<seq<Interval>>, i: nat, j: nat)
    requires i <= j < |zs| == |ivs| && b.iv != [] && Hull(b.iv, Concat(ivs, i, j + 1)) && ivs[i] != []
    requires b.zlo == CellLo(zs, i) - 0.5 * COARSE && b.zhi == CellHi(zs, j) + 0.5 * COARSE && WholeRun(ivs, i, j)
    ensures RunBand(b, zs, ivs, i, j)
  {
    hide Hull, Concat;
    forall k | i <= k <= j
      ensures ivs[k] != []
    {
      RunAlike(ivs, i, j, k);
    }
  }

  lemma RunAdded(bands: seq<Band>, zs: seq<real>, ivs: seq<seq<Interval>>, i: nat, j: nat, band: Band)
    requires |zs| == |ivs| && RunBand(band, zs, ivs, i, j)
    ensures FromRun(band, zs, ivs)
    ensures forall k: nat :: InRun(bands, zs, ivs, k) ==> InRun(bands + [band], zs, ivs, k)
    ensures forall k: nat :: i <= k <= j ==> InRun(bands + [band], zs, ivs, k)
  {
    assert band in bands + [band];
    forall k: nat | InRun(bands, zs, ivs, k)
      ensures InRun(bands + [band], zs, ivs, k)
    {
      var b, x: nat, y: nat :| b in bands && x <= k <= y && RunBand(b, zs, ivs, x, y);
      assert b in bands + [band];
    }
  }

  // ---------------------------------------------------------------------------------------------
  // What the model keeps of its slices.

  /** Nothing a slice saw is lost: a point in the cell and in an interval of a slice is supported, and its
      separation is zero. */
  lemma NothingLost(s: Support, zs: seq<real>, ivs: seq<seq<Interval>>, k: nat, z: real, r: real)
    requires WellFormed(s) && Slices(zs, ivs) && k < |zs|
    requires forall x :: 0 <= x < |zs| && ivs[x] != [] ==> InRun(s.bands, zs, ivs, x)
    requires CellLo(zs, k) <= z <= CellHi(zs, k) && In(ivs[k], r)
    ensures Supported(s, z, r)
    ensures Nearest(Extent(z, z, r, r), s.bands, |s.bands|, s.edge) <= 0.0
  {
    hide WholeRun, Hull;
    assert |zs| == |ivs| && ivs[k] != [];
    assert InRun(s.bands, zs, ivs, k);
    hide *;
    var b, i, j := RunOf(s.bands, zs, ivs, k);
    var n := SeenInBand(b, zs, ivs, i, j, k, z, r);
    PointSupported(s, b, b.iv[n], z, r);
  }

  lemma RunOf(bands: seq<Band>, zs: seq<real>, ivs: seq<seq<Interval>>, k: nat) returns (b: Band, i: nat, j: nat)
    requires |zs| == |ivs| && InRun(bands, zs, ivs, k)
    ensures b in bands && i <= k <= j < |zs| && RunBand(b, zs, ivs, i, j)
  {
    b, i, j :| b in bands && i <= k <= j && RunBand(b, zs, ivs, i, j);
  }

  lemma SeenInBand(b: Band, zs: seq<real>, ivs: seq<seq<Interval>>, i: nat, j: nat, k: nat, z: real, r: real)
    returns (n: nat)
    requires Slices(zs, ivs) && i <= k <= j < |zs| && RunBand(b, zs, ivs, i, j)
    requires CellLo(zs, k) <= z <= CellHi(zs, k) && In(ivs[k], r)
    ensures b.zlo <= z <= b.zhi && n < |b.iv| && b.iv[n].lo <= r <= b.iv[n].hi
  {
    CellsOrdered(zs, i, k);
    CellsOrdered(zs, k, j);
    ConcatIn(ivs, i, j + 1, k, r);
    assert In(b.iv, r);
    n :| 0 <= n < |b.iv| && b.iv[n].lo <= r <= b.iv[n].hi;
  }

  lemma PointSupported(s: Support, b: Band, iv: Interval, z: real, r: real)
    requires WellFormed(s) && b in s.bands && iv in b.iv && b.zlo <= z <= b.zhi && iv.lo <= r <= iv.hi
    ensures Supported(s, z, r)
    ensures Nearest(Extent(z, z, r, r), s.bands, |s.bands|, s.edge) <= 0.0
  {
    assert s.bands[..|s.bands|] == s.bands;
    assert InModel(s.bands, |s.bands|, b, iv) && InBox(b, iv, s.edge, z, r);
    var e := Extent(z, z, r, r);
    assert InExtent(e, z, r);
    SeparationZero(s, e);
  }

  /** And nothing is claimed far from what a slice saw: a z in a band is within half a coarse step of a
      cell of the band's own run, and a radius in one of its intervals within 1e-9 of an interval of a slice
      of that run. */
  lemma StaysLocal(zs: seq<real>, ivs: seq<seq<Interval>>, b: Band, z: real, r: real)
    returns (i: nat, j: nat, x: nat, y: nat)
    requires Slices(zs, ivs) && FromRun(b, zs, ivs)
    requires b.zlo <= z <= b.zhi && In(b.iv, r)
    ensures RunBand(b, zs, ivs, i, j) && i <= x <= j && i <= y <= j
    ensures ivs[x] != [] && CellLo(zs, x) - 0.5 * COARSE <= z <= CellHi(zs, x) + 0.5 * COARSE
    ensures Near(ivs[y], r)
  {
    hide WholeRun, Hull;
    i, j :| RunBand(b, zs, ivs, i, j);
    x := RunCell(b, zs, ivs, i, j, z);
    RunNear(b, zs, ivs, i, j, r);
    y := ConcatNear(ivs, i, j + 1, r);
  }

  lemma RunCell(b: Band, zs: seq<real>, ivs: seq<seq<Interval>>, i: nat, j: nat, z: real) returns (k: nat)
    requires |zs| == |ivs| && RunBand(b, zs, ivs, i, j) && b.zlo <= z <= b.zhi
    ensures i <= k <= j && ivs[k] != []
    ensures CellLo(zs, k) - 0.5 * COARSE <= z <= CellHi(zs, k) + 0.5 * COARSE
  {
    k := CellOf(zs, i, j, z);
  }

  lemma RunNear(b: Band, zs: seq<real>, ivs: seq<seq<Interval>>, i: nat, j: nat, r: real)
    requires |zs| == |ivs| && RunBand(b, zs, ivs, i, j) && In(b.iv, r)
    ensures Near(Concat(ivs, i, j + 1), r)
  {}

  // A run of cells has no holes.
  lemma {:induction false} CellOf(zs: seq<real>, i: nat, j: nat, z: real) returns (k: nat)
    requires i <= j < |zs| && CellLo(zs, i) - 0.5 * COARSE <= z <= CellHi(zs, j) + 0.5 * COARSE
    ensures i <= k <= j && CellLo(zs, k) - 0.5 * COARSE <= z <= CellHi(zs, k) + 0.5 * COARSE
  {
    if i == j || z >= CellLo(zs, j) {
      k := j;
    } else {
      k := CellOf(zs, i, j - 1, z);
    }
  }

  // ---------------------------------------------------------------------------------------------
  // The whole model, and what a verdict on it says of the field.

  const REFINED := 0.1

  /** Slices of the field at increasing z, none above last. */
  ghost predicate Scanned(zs: seq<real>, ivs: seq<seq<Interval>>, field: (real, real) -> real, grid: seq<real>,
                          threshold: real, last: real) {
    && Slices(zs, ivs) && (forall k :: 0 <= k < |zs| ==> zs[k] <= last)
    && |grid| > 0 && forall k :: 0 <= k < |zs| ==> SliceRight(ivs[k], r => field(zs[k], r), grid, threshold)
  }

  lemma ScannedNext(zs: seq<real>, ivs: seq<seq<Interval>>, field: (real, real) -> real, grid: seq<real>,
                    threshold: real, last: real, z: real, iv: seq<Interval>)
    requires Scanned(zs, ivs, field, grid, threshold, last) && last < z
    requires |grid| > 0 && AllProper(iv) && SliceRight(iv, r => field(z, r), grid, threshold)
    ensures Scanned(zs + [z], ivs + [iv], field, grid, threshold, z)
  {
    hide AllProper, SliceRight;
  }

  lemma ScannedFurther(zs: seq<real>, ivs: seq<seq<Interval>>, field: (real, real) -> real, grid: seq<real>,
                       threshold: real, last: real, further: real)
    requires Scanned(zs, ivs, field, grid, threshold, last) && last <= further
    ensures Scanned(zs, ivs, field, grid, threshold, further)
  {
    hide Slices, SliceRight;
  }

  function Fine(from: real, q: nat): real { from + q as real * REFINED }

  /** Every fine z in between. */
  ghost predicate AllFine(zs: seq<real>, from: real, to: real) {
    forall q: nat :: 1 <= q && Fine(from, q) < to - EPS ==> Fine(from, q) in zs
  }

  lemma FineOrder(from: real, n: nat, q: nat)
    ensures n <= q ==> Fine(from, n) <= Fine(from, q)
  {}

  /** Between a coarse slice and the next: all the fine ones if the structure has changed, at this threshold or
      elsewhere, and none if it has not. */
  ghost predicate RefinedStep(zs: seq<real>, ivs: seq<seq<Interval>>, elsewhere: real -> bool, zmin: real, m: nat)
    requires |zs| == |ivs|
  {
    forall x, y :: 0 <= x < |zs| && 0 <= y < |zs| && zs[x] == Step(zmin, m) && zs[y] == Step(zmin, m + 1) ==>
      RefinedBetween(zs, ivs, elsewhere, x, y)
  }

  ghost predicate RefinedBetween(zs: seq<real>, ivs: seq<seq<Interval>>, elsewhere: real -> bool, x: nat, y: nat)
    requires |zs| == |ivs| && x < |zs| && y < |zs|
  {
    if elsewhere(zs[y]) || !SameStructure(ivs[x], ivs[y])
    then AllFine(zs, zs[x], zs[y])
    else y == x + 1
  }

  lemma RefinedKept(zs0: seq<real>, ivs0: seq<seq<Interval>>, zs: seq<real>, ivs: seq<seq<Interval>>,
                    elsewhere: real -> bool, zmin: real, m: nat)
    requires |zs0| == |ivs0| && Slices(zs, ivs) && zs0 <= zs && ivs0 <= ivs
    requires RefinedStep(zs0, ivs0, elsewhere, zmin, m)
    requires Step(zmin, m) in zs0 && Step(zmin, m + 1) in zs0
    ensures RefinedStep(zs, ivs, elsewhere, zmin, m)
  {
    hide SameStructure;
    forall x, y | 0 <= x < |zs| && 0 <= y < |zs| && zs[x] == Step(zmin, m) && zs[y] == Step(zmin, m + 1)
      ensures RefinedBetween(zs, ivs, elsewhere, x, y)
    {
      SamePlace(zs0, zs, x);
      SamePlace(zs0, zs, y);
      assert RefinedBetween(zs0, ivs0, elsewhere, x, y);
    }
  }

  lemma SamePlace(zs0: seq<real>, zs: seq<real>, x: nat)
    requires zs0 <= zs && (forall i, j :: 0 <= i < j < |zs| ==> zs[i] < zs[j]) && x < |zs| && zs[x] in zs0
    ensures x < |zs0| && zs0[x] == zs[x]
  {
    var k :| 0 <= k < |zs0| && zs0[k] == zs[x];
    assert zs[k] == zs[x];
  }

  lemma RefinedNew(zs: seq<real>, ivs: seq<seq<Interval>>, elsewhere: real -> bool, zmin: real, m: nat, x: nat)
    requires Slices(zs, ivs) && x < |zs| - 1 && zs[x] == Step(zmin, m) && zs[|zs| - 1] == Step(zmin, m + 1)
    requires RefinedBetween(zs, ivs, elsewhere, x, |zs| - 1)
    ensures RefinedStep(zs, ivs, elsewhere, zmin, m)
  {
    hide RefinedBetween;
  }

  /** Slices in between two coarse ones. */
  method Refine(field: (real, real) -> real, grid: seq<real>, threshold: real, from: real, to: real,
                zs0: seq<real>, ivs0: seq<seq<Interval>>) returns (zs: seq<real>, ivs: seq<seq<Interval>>)
    requires Increasing(grid) && Scanned(zs0, ivs0, field, grid, threshold, from) && from + EPS <= to
    ensures Scanned(zs, ivs, field, grid, threshold, to - EPS) && zs0 <= zs && ivs0 <= ivs
    ensures AllFine(zs, from, to)
  {
    zs, ivs := zs0, ivs0;
    ghost var last, n := from, 1;
    var zz := from + REFINED;
    assert |grid| > 0;
    hide Scanned, Increasing;
    while zz < to - EPS
      invariant Scanned(zs, ivs, field, grid, threshold, last) && zs0 <= zs && ivs0 <= ivs && last == zz - REFINED
      invariant last == from || last < to - EPS
      invariant n >= 1 && zz == Fine(from, n) && forall q: nat :: 1 <= q < n ==> Fine(from, q) in zs
      decreases (to - zz) * 10.0
    {
      var slice := SliceAt(r => field(zz, r), grid, threshold);
      ScannedNext(zs, ivs, field, grid, threshold, last, zz, slice);
      zs, ivs, last := zs + [zz], ivs + [slice], zz;
      zz, n := zz + REFINED, n + 1;
    }
    forall q: nat | 1 <= q && Fine(from, q) < to - EPS
      ensures Fine(from, q) in zs
    {
      FineOrder(from, n, q);
    }
    ScannedFurther(zs, ivs, field, grid, threshold, last, to - EPS);
  }

  /** The scan in z: a slice every coarse step, and finer ones wherever the structure has changed, at this
      threshold or, as elsewhere says, at another one. */
  method Scan(field: (real, real) -> real, grid: seq<real>, threshold: real, zmin: real, zmax: real,
              elsewhere: real -> bool)
    returns (zs: seq<real>, ivs: seq<seq<Interval>>)
    requires Increasing(grid)
    ensures exists last :: Scanned(zs, ivs, field, grid, threshold, last)
    ensures forall n: nat :: Step(zmin, n) <= zmax + EPS ==> Step(zmin, n) in zs
    ensures |zs| == |ivs|
    ensures forall n: nat :: Step(zmin, n + 1) <= zmax + EPS ==> RefinedStep(zs, ivs, elsewhere, zmin, n)
  {
    zs, ivs := [], [];
    ghost var n: nat := 0;
    var z := zmin;
    var previous: seq<Interval>, havePrevious := [], false;
    ScanStart(field, grid, threshold, zmin, elsewhere);
    hide Scanned, ScannedTo, RefinedStep, Increasing, SameStructure;
    while z <= zmax + EPS
      invariant z == Step(zmin, n) && Scanned(zs, ivs, field, grid, threshold, z - COARSE)
      invariant ScannedTo(zs, ivs, elsewhere, zmin, n)
      invariant havePrevious <==> n > 0
      invariant havePrevious ==> |ivs| > 0 && previous == ivs[|ivs| - 1]
      decreases zmax + EPS - z + COARSE
    {
      zs, ivs, previous := ScanOne(field, grid, threshold, elsewhere, zmin, z, n, previous, havePrevious, zs, ivs);
      havePrevious := true;
      n := n + 1;
      z := z + COARSE;
    }
    StepsDone(zs, ivs, elsewhere, zmin, n, zmax);
  }

  lemma ScanStart(field: (real, real) -> real, grid: seq<real>, threshold: real, zmin: real, elsewhere: real -> bool)
    requires Increasing(grid)
    ensures Scanned([], [], field, grid, threshold, zmin - COARSE) && ScannedTo([], [], elsewhere, zmin, 0)
  {}

  /** The fine slices before the next coarse one, if there are to be any. */
  method RefineWhenChanged(field: (real, real) -> real, grid: seq<real>, threshold: real, z: real, changed: bool,
                           zs0: seq<real>, ivs0: seq<seq<Interval>>)
    returns (zs: seq<real>, ivs: seq<seq<Interval>>)
    requires Increasing(grid) && Scanned(zs0, ivs0, field, grid, threshold, z - COARSE)
    ensures Scanned(zs, ivs, field, grid, threshold, z - EPS) && zs0 <= zs && ivs0 <= ivs
    ensures if changed then AllFine(zs, z - COARSE, z) else zs == zs0 && ivs == ivs0
  {
    hide Scanned, Increasing, AllFine;
    zs, ivs := zs0, ivs0;
    if changed {
      zs, ivs := Refine(field, grid, threshold, z - COARSE, z, zs, ivs);
    } else {
      ScannedFurther(zs, ivs, field, grid, threshold, z - COARSE, z - EPS);
    }
  }

  /** One coarse step: fine slices before the new one if it is not like the previous one. */
  method ScanOne(field: (real, real) -> real, grid: seq<real>, threshold: real, elsewhere: real -> bool,
                 ghost zmin: real, z: real, ghost n: nat, previous: seq<Interval>, havePrevious: bool,
                 zs0: seq<real>, ivs0: seq<seq<Interval>>)
    returns (zs: seq<real>, ivs: seq<seq<Interval>>, slice: seq<Interval>)
    requires Increasing(grid) && z == Step(zmin, n) && Scanned(zs0, ivs0, field, grid, threshold, z - COARSE)
    requires ScannedTo(zs0, ivs0, elsewhere, zmin, n)
    requires (havePrevious <==> n > 0) && (havePrevious ==> |ivs0| > 0 && previous == ivs0[|ivs0| - 1])
    ensures Scanned(zs, ivs, field, grid, threshold, z) && ScannedTo(zs, ivs, elsewhere, zmin, n + 1)
    ensures |ivs| > 0 && slice == ivs[|ivs| - 1]
  {
    assert |grid| > 0 && |zs0| == |ivs0|;
    hide Scanned, ScannedTo, RefinedStep, Increasing, SliceRight, Slices, AllFine;
    slice := SliceAt(r => field(z, r), grid, threshold);
    var changed := havePrevious && (elsewhere(z) || !SameStructure(previous, slice));
    zs, ivs := RefineWhenChanged(field, grid, threshold, z, changed, zs0, ivs0);
    ScannedNext(zs, ivs, field, grid, threshold, z - EPS, z, slice);
    FineStill(zs, z - COARSE, z, z);
    SlicesIn(zs, ivs, field, grid, threshold, z - EPS);
    zs, ivs := zs + [z], ivs + [slice];
    SlicesIn(zs, ivs, field, grid, threshold, z);
    ScanStep(zs0, ivs0, zs, ivs, elsewhere, zmin, n, changed);
  }

  lemma FineStill(zs: seq<real>, from: real, to: real, z: real)
    ensures AllFine(zs, from, to) ==> AllFine(zs + [z], from, to)
  {}

  lemma SlicesIn(zs: seq<real>, ivs: seq<seq<Interval>>, field: (real, real) -> real, grid: seq<real>,
                 threshold: real, last: real)
    requires Scanned(zs, ivs, field, grid, threshold, last)
    ensures Slices(zs, ivs) && |zs| == |ivs|
  {}

  /** The coarse slices below n are there, the last of them last, and the steps between them are refined. */
  ghost predicate ScannedTo(zs: seq<real>, ivs: seq<seq<Interval>>, elsewhere: real -> bool, zmin: real, n: nat) {
    && |zs| == |ivs| && (forall m: nat :: m < n ==> Step(zmin, m) in zs)
    && (n > 0 ==> |zs| > 0 && zs[|zs| - 1] == Step(zmin, n - 1))
    && (forall m: nat :: m + 1 < n ==> RefinedStep(zs, ivs, elsewhere, zmin, m))
  }

  lemma ScanStep(zs0: seq<real>, ivs0: seq<seq<Interval>>, zs: seq<real>, ivs: seq<seq<Interval>>,
                 elsewhere: real -> bool, zmin: real, n: nat, changed: bool)
    requires ScannedTo(zs0, ivs0, elsewhere, zmin, n) && Slices(zs, ivs) && |zs0| < |zs|
    requires zs0 <= zs && ivs0 <= ivs && zs[|zs| - 1] == Step(zmin, n)
    requires n > 0 ==> (changed <==> elsewhere(Step(zmin, n)) || !SameStructure(ivs0[|ivs0| - 1], ivs[|ivs| - 1]))
    requires n > 0 && changed ==> AllFine(zs, Step(zmin, n - 1), Step(zmin, n))
    requires !changed ==> |zs| == |zs0| + 1
    ensures ScannedTo(zs, ivs, elsewhere, zmin, n + 1)
  {
    hide RefinedStep, Slices, SameStructure;
    assert |zs| == |ivs| by { SlicesSize(zs, ivs); }
    forall m: nat | m + 1 < n + 1
      ensures RefinedStep(zs, ivs, elsewhere, zmin, m)
    {
      if m + 1 < n {
        RefinedKept(zs0, ivs0, zs, ivs, elsewhere, zmin, m);
      } else {
        RefinedNew(zs, ivs, elsewhere, zmin, m, |zs0| - 1);
      }
    }
  }

  lemma SlicesSize(zs: seq<real>, ivs: seq<seq<Interval>>)
    requires Slices(zs, ivs)
    ensures |zs| == |ivs|
  {}

  lemma StepsDone(zs: seq<real>, ivs: seq<seq<Interval>>, elsewhere: real -> bool, zmin: real, n: nat, zmax: real)
    requires ScannedTo(zs, ivs, elsewhere, zmin, n) && Step(zmin, n) > zmax + EPS
    ensures forall m: nat :: Step(zmin, m) <= zmax + EPS ==> Step(zmin, m) in zs
    ensures forall m: nat :: Step(zmin, m + 1) <= zmax + EPS ==> RefinedStep(zs, ivs, elsewhere, zmin, m)
  {
    hide RefinedStep;
  }

  /** A support whose bands were built from slices. */
  ghost predicate BuiltFrom(s: Support, zs: seq<real>, ivs: seq<seq<Interval>>) {
    Slices(zs, ivs) && BandsUpTo(s.bands, zs, ivs, |zs|)
  }

  lemma BuiltWell(s: Support, zs: seq<real>, ivs: seq<seq<Interval>>)
    requires BuiltFrom(s, zs, ivs) && s.edge >= 0.0 && s.marginTight > 0.0 && s.marginStrict > 0.0
    ensures WellFormed(s)
  {
    forall b | b in s.bands
      ensures b.zlo <= b.zhi && forall iv :: iv in b.iv ==> iv.lo <= iv.hi
    {
      var i: nat, j: nat :| RunBand(b, zs, ivs, i, j);
      CellsOrdered(zs, i, j);
    }
  }

  lemma OwnCell(zs: seq<real>, k: nat)
    requires k < |zs| && forall x, y :: 0 <= x < y < |zs| ==> zs[x] < zs[y]
    ensures CellLo(zs, k) <= zs[k] <= CellHi(zs, k)
  {}

  /** A point of the grid at which a slice saw the field above the threshold is supported. */
  lemma SeenIsSupported(s: Support, zs: seq<real>, ivs: seq<seq<Interval>>, field: (real, real) -> real,
                        grid: seq<real>, threshold: real, last: real, k: nat, i: nat)
    requires WellFormed(s) && BuiltFrom(s, zs, ivs) && Scanned(zs, ivs, field, grid, threshold, last)
    requires k < |zs| && i < |grid| && field(zs[k], grid[i]) > threshold
    ensures Supported(s, zs[k], grid[i])
  {
    OwnCell(zs, k);
    assert In(ivs[k], grid[i]) by {
      assert SliceRight(ivs[k], r => field(zs[k], r), grid, threshold);
    }
    NothingLost(s, zs, ivs, k, zs[k], grid[i]);
  }

  /** Slices x and y are in one run, z is within half a coarse step of the cell of x, and r within 0.01 of an
      interval of y, give or take the slack above. */
  ghost predicate RunPoint(zs: seq<real>, ivs: seq<seq<Interval>>, z: real, r: real, slack: real,
                           i: nat, j: nat, x: nat, y: nat)
    requires |zs| == |ivs|
  {
    && i <= x <= j < |zs| && i <= y <= j && Alike(ivs, i, j)
    && CellLo(zs, x) - 0.5 <= z <= CellHi(zs, x) + 0.5
    && exists k :: 0 <= k < |ivs[y]| && ivs[y][k].lo - 0.01 <= r <= ivs[y][k].hi + 0.01 + slack
  }

  ghost predicate RunHolds(zs: seq<real>, ivs: seq<seq<Interval>>, z: real, r: real, slack: real)
    requires |zs| == |ivs|
  {
    exists i: nat, j: nat, x: nat, y: nat :: RunPoint(zs, ivs, z, r, slack, i, j, x, y)
  }

  /** The support is what its runs of slices hold, and at most 1e-9 more on the upper side. */
  ghost predicate Local(s: Support, zs: seq<real>, ivs: seq<seq<Interval>>)
    requires |zs| == |ivs|
  {
    && (forall z, r :: RunHolds(zs, ivs, z, r, 0.0) ==> Supported(s, z, r))
    && (forall z, r :: Supported(s, z, r) ==> RunHolds(zs, ivs, z, r, EPS))
  }

  lemma SupportIsLocal(s: Support, zs: seq<real>, ivs: seq<seq<Interval>>)
    requires BuiltFrom(s, zs, ivs) && s.edge == 0.01
    ensures Local(s, zs, ivs)
  {
    hide RunHolds, Supported, BuiltFrom;
    assert |zs| == |ivs| by { SlicesOf(s, zs, ivs); }
    forall z, r | Supported(s, z, r)
      ensures RunHolds(zs, ivs, z, r, EPS)
    {
      SupportedIsHeld(s, zs, ivs, z, r);
    }
    forall z, r | RunHolds(zs, ivs, z, r, 0.0)
      ensures Supported(s, z, r)
    {
      HeldIsSupported(s, zs, ivs, z, r);
    }
  }

  lemma SlicesOf(s: Support, zs: seq<real>, ivs: seq<seq<Interval>>)
    requires BuiltFrom(s, zs, ivs)
    ensures |zs| == |ivs| && Slices(zs, ivs) && BandsUpTo(s.bands, zs, ivs, |zs|)
  {}

  lemma SupportedIsHeld(s: Support, zs: seq<real>, ivs: seq<seq<Interval>>, z: real, r: real)
    requires BuiltFrom(s, zs, ivs) && s.edge == 0.01 && Supported(s, z, r)
    ensures |zs| == |ivs| && RunHolds(zs, ivs, z, r, EPS)
  {
    SlicesOf(s, zs, ivs);
    hide BuiltFrom, Slices, FromRun, InRun, In, AllProper, RunPoint, WholeRun, Alike;
    var b, iv :| InModel(s.bands, |s.bands|, b, iv) && InBox(b, iv, s.edge, z, r);
    assert b in s.bands && FromRun(b, zs, ivs);
    BandProper(b, zs, ivs);
    var r' := InInterval(b.iv, iv, r);
    var i, j, x, y := StaysLocal(zs, ivs, b, z, r');
    RunIsWhole(b, zs, ivs, i, j);
    HeldAt(zs, ivs, z, r, r', i, j, x, y);
  }

  // The nearest radius of one of the intervals.
  lemma InInterval(ivs: seq<Interval>, iv: Interval, r: real) returns (r': real)
    requires AllProper(ivs) && iv in ivs && iv.lo - 0.01 <= r <= iv.hi + 0.01
    ensures In(ivs, r') && r' - 0.01 <= r <= r' + 0.01
  {
    var k :| 0 <= k < |ivs| && ivs[k] == iv;
    r' := Max(iv.lo, Min(r, iv.hi));
  }

  lemma HeldAt(zs: seq<real>, ivs: seq<seq<Interval>>, z: real, r: real, r': real, i: nat, j: nat, x: nat, y: nat)
    requires |zs| == |ivs| && i <= x <= j < |zs| && i <= y <= j && Alike(ivs, i, j)
    requires CellLo(zs, x) - 0.5 * COARSE <= z <= CellHi(zs, x) + 0.5 * COARSE
    requires Near(ivs[y], r') && r' - 0.01 <= r <= r' + 0.01
    ensures RunHolds(zs, ivs, z, r, EPS)
  {
    hide Alike;
    var k :| 0 <= k < |ivs[y]| && ivs[y][k].lo <= r' <= ivs[y][k].hi + EPS;
    assert RunPoint(zs, ivs, z, r, EPS, i, j, x, y);
  }

  lemma BandProper(b: Band, zs: seq<real>, ivs: seq<seq<Interval>>)
    requires |zs| == |ivs| && FromRun(b, zs, ivs)
    ensures AllProper(b.iv)
  {
    hide WholeRun;
  }

  lemma RunIsWhole(b: Band, zs: seq<real>, ivs: seq<seq<Interval>>, i: nat, j: nat)
    requires |zs| == |ivs| && RunBand(b, zs, ivs, i, j)
    ensures i <= j < |zs| && WholeRun(ivs, i, j) && Alike(ivs, i, j)
  {}

  // Slices of one run are in the same band.
  lemma HeldIsSupported(s: Support, zs: seq<real>, ivs: seq<seq<Interval>>, z: real, r: real)
    requires BuiltFrom(s, zs, ivs) && s.edge == 0.01 && |zs| == |ivs| && RunHolds(zs, ivs, z, r, 0.0)
    ensures Supported(s, z, r)
  {
    SlicesOf(s, zs, ivs);
    hide BuiltFrom, InRun, In, Slices, WholeRun, Alike, Supported, RunBand;
    var i: nat, j: nat, x: nat, y: nat :| RunPoint(zs, ivs, z, r, 0.0, i, j, x, y);
    var k :| 0 <= k < |ivs[y]| && ivs[y][k].lo - 0.01 <= r <= ivs[y][k].hi + 0.01;
    assert ivs[y] != [] && InRun(s.bands, zs, ivs, y);
    SliceProper(zs, ivs, y);
    hide BandsUpTo;
    var r' := InInterval(ivs[y], ivs[y][k], r);
    var b, p, q := RunOf(s.bands, zs, ivs, y);
    RunIsWhole(b, zs, ivs, p, q);
    RunReaches(ivs, p, q, i, j, x, y);
    OwnCellIn(zs, ivs, y);
    var n := SeenInBand(b, zs, ivs, p, q, y, zs[y], r');
    BandAround(b, zs, ivs, p, q, x, z);
    BoxSupported(s, b, b.iv[n], z, r);
  }

  lemma SliceProper(zs: seq<real>, ivs: seq<seq<Interval>>, k: nat)
    requires Slices(zs, ivs) && k < |ivs|
    ensures AllProper(ivs[k])
  {}

  lemma BoxSupported(s: Support, b: Band, iv: Interval, z: real, r: real)
    requires b in s.bands && iv in b.iv && InBox(b, iv, s.edge, z, r)
    ensures Supported(s, z, r)
  {
    assert s.bands[..|s.bands|] == s.bands;
    assert InModel(s.bands, |s.bands|, b, iv);
  }

  lemma OwnCellIn(zs: seq<real>, ivs: seq<seq<Interval>>, k: nat)
    requires Slices(zs, ivs) && k < |zs|
    ensures CellLo(zs, k) <= zs[k] <= CellHi(zs, k)
  {
    OwnCell(zs, k);
  }

  lemma BandAround(b: Band, zs: seq<real>, ivs: seq<seq<Interval>>, i: nat, j: nat, x: nat, z: real)
    requires Slices(zs, ivs) && RunBand(b, zs, ivs, i, j) && i <= x <= j
    requires CellLo(zs, x) - 0.5 <= z <= CellHi(zs, x) + 0.5
    ensures b.zlo <= z <= b.zhi
  {
    CellsOrdered(zs, i, x);
    CellsOrdered(zs, x, j);
  }

  // A whole run reaches as far as any run that shares a slice with it.
  lemma RunReaches(ivs: seq<seq<Interval>>, p: nat, q: nat, i: nat, j: nat, x: nat, y: nat)
    requires p <= q < |ivs| && WholeRun(ivs, p, q) && i <= j < |ivs| && Alike(ivs, i, j)
    requires p <= y <= q && i <= y <= j && i <= x <= j
    ensures p <= x <= q
  {}

  /** The field model of the source: slices, then bands, with its edge uncertainty and tight margin. Nothing
      the slices saw is lost, and nothing is claimed but what they saw. */
  method BuildSupport(field: (real, real) -> real, grid: seq<real>, threshold: real, zmin: real, zmax: real,
                      rmax: real, marginStrict: real, elsewhere: real -> bool)
    returns (s: Support, ghost zs: seq<real>, ghost ivs: seq<seq<Interval>>)
    requires Increasing(grid) && marginStrict > 0.0
    ensures WellFormed(s) && s.marginStrict == marginStrict && s.marginTight == 0.05 && s.edge == 0.01
    ensures s.zmin == zmin && s.zmax == zmax && s.rmax == rmax
    ensures exists last :: Scanned(zs, ivs, field, grid, threshold, last)
    ensures |zs| == |ivs| && Local(s, zs, ivs)
    ensures Outer(s, field, grid, threshold, zs)
    ensures forall n: nat :: Step(zmin, n) <= zmax + EPS ==> Step(zmin, n) in zs
    ensures forall n: nat :: Step(zmin, n + 1) <= zmax + EPS ==> RefinedStep(zs, ivs, elsewhere, zmin, n)
  {
    var scanZs, scanIvs := Scan(field, grid, threshold, zmin, zmax, elsewhere);
    ghost var last :| Scanned(scanZs, scanIvs, field, grid, threshold, last);
    var bands := BuildBands(scanZs, scanIvs);
    s := Support(bands, TOL, marginStrict, 0.05, zmin, zmax, rmax);
    zs, ivs := scanZs, scanIvs;
    BuiltWell(s, zs, ivs);
    SupportIsLocal(s, zs, ivs);
    OuterBound(s, zs, ivs, field, grid, threshold, last);
  }

  /** The outer bound: where a slice sees the field above the threshold on the radial grid, the point is
      supported. */
  ghost predicate Outer(s: Support, field: (real, real) -> real, grid: seq<real>, threshold: real, zs: seq<real>) {
    forall k, i :: 0 <= k < |zs| && 0 <= i < |grid| && field(zs[k], grid[i]) > threshold ==>
      Supported(s, zs[k], grid[i])
  }

  function Step(zmin: real, n: nat): real { zmin + n as real * COARSE }

  lemma OuterBound(s: Support, zs: seq<real>, ivs: seq<seq<Interval>>, field: (real, real) -> real, grid: seq<real>,
                   threshold: real, last: real)
    requires WellFormed(s) && BuiltFrom(s, zs, ivs) && Scanned(zs, ivs, field, grid, threshold, last)
    ensures Outer(s, field, grid, threshold, zs)
  {
    hide WellFormed, BuiltFrom, Scanned, Supported;
    forall k, i | 0 <= k < |zs| && 0 <= i < |grid| && field(zs[k], grid[i]) > threshold
      ensures Supported(s, zs[k], grid[i])
    {
      SeenIsSupported(s, zs, ivs, field, grid, threshold, last, k, i);
    }
  }

  /** No point of the extent is nearer than the margin to what the runs of slices hold. */
  ghost predicate FarFrom(zs: seq<real>, ivs: seq<seq<Interval>>, e: Extent, margin: real, slack: real)
    requires |zs| == |ivs|
  {
    forall z, r, z', r' :: InExtent(e, z, r) && RunHolds(zs, ivs, z', r', slack) ==>
      Square(margin) <= Distance2(z, r, z', r')
  }

  lemma FarIsClear(s: Support, zs: seq<real>, ivs: seq<seq<Interval>>, e: Extent, margin: real)
    requires |zs| == |ivs| && Local(s, zs, ivs) && margin > 0.0
    ensures FarFrom(zs, ivs, e, margin, EPS) ==> Clear(s, e, margin)
    ensures Clear(s, e, margin) ==> FarFrom(zs, ivs, e, margin, 0.0)
  {
    hide Square, RunHolds, Supported;
    SquarePositive(margin);
    if FarFrom(zs, ivs, e, margin, EPS) {
      forall z, r | InExtent(e, z, r)
        ensures !Supported(s, z, r)
      {
        NoDistance(z, r);
      }
    }
  }

  lemma NoDistance(z: real, r: real)
    ensures Distance2(z, r, z, r) == 0.0
  {
    TimesZero(0.0);
  }

  /** Where the field is at most the threshold from some grid radius on, at every z, intervals end below it. */
  lemma QuietSlices(zs: seq<real>, ivs: seq<seq<Interval>>, field: (real, real) -> real, grid: seq<real>,
                    threshold: real, last: real, i: nat, y: nat, k: nat)
    requires Scanned(zs, ivs, field, grid, threshold, last) && Increasing(grid) && i < |grid|
    requires QuietFrom(field, grid, threshold, i)
    requires y < |ivs| && k < |ivs[y]|
    ensures ivs[y][k].hi < grid[i]
  {
    var iv, f := ivs[y], r => field(zs[y], r);
    assert SliceRight(iv, f, grid, threshold);
    assert HoldsGrid(iv[k], grid);
    var m :| 0 <= m < |grid| && iv[k].lo <= grid[m] <= iv[k].hi;
    assert In(iv, grid[m]);
    assert f(grid[m]) > threshold;
    assert m < i && grid[m] < grid[i];
    assert In(iv, grid[i]) <==> f(grid[i]) > threshold;
  }

  lemma QuietIsFar(zs: seq<real>, ivs: seq<seq<Interval>>, field: (real, real) -> real, grid: seq<real>,
                   threshold: real, last: real, i: nat, e: Extent, margin: real)
    requires Scanned(zs, ivs, field, grid, threshold, last) && Increasing(grid) && i < |grid|
    requires QuietFrom(field, grid, threshold, i)
    requires margin >= 0.0 && e.rmin >= grid[i] + 0.01 + EPS + margin
    ensures FarFrom(zs, ivs, e, margin, EPS)
  {
    forall z, r, z', r' | InExtent(e, z, r) && RunHolds(zs, ivs, z', r', EPS)
      ensures Square(margin) <= Distance2(z, r, z', r')
    {
      var p: nat, q: nat, x: nat, y: nat :| RunPoint(zs, ivs, z', r', EPS, p, q, x, y);
      var k :| 0 <= k < |ivs[y]| && ivs[y][k].lo - 0.01 <= r' <= ivs[y][k].hi + 0.01 + EPS;
      QuietSlices(zs, ivs, field, grid, threshold, last, i, y, k);
      hide *;
      Further(z, r, z', r', margin);
    }
  }

  lemma Further(z: real, r: real, z': real, r': real, margin: real)
    requires 0.0 <= margin <= r - r'
    ensures Square(margin) <= Distance2(z, r, z', r')
  {
    hide Square;
    SquareMonotone(margin, r - r');
    SquareNonNegative(z - z');
  }

  /** From the field to the verdict. An extent judged out of the field holds no point, at the z of a slice and
      on the radial grid, at which the field exceeds the threshold; there is a slice at every coarse z. And the
      model stays local: an extent in the domain is judged OUT only when it is no nearer than the margin to
      what the slices saw, and always when it is 1e-9 further, or when it lies outside a grid radius from which
      the field is quiet. */
  method Judge(field: (real, real) -> real, grid: seq<real>, threshold: real, zmin: real, zmax: real, rmax: real,
               marginStrict: real, elsewhere: real -> bool, e: Extent, scanned: real)
    returns (v: Verdict, ghost zs: seq<real>, ghost ivs: seq<seq<Interval>>)
    requires Increasing(grid) && marginStrict > 0.0 && Square(marginStrict) <= FAR_TEST && Proper(e)
    ensures |zs| == |ivs| && exists last :: Scanned(zs, ivs, field, grid, threshold, last)
    ensures forall n: nat :: Step(zmin, n) <= zmax + EPS ==> Step(zmin, n) in zs
    ensures v == OUT || v == OUT_TIGHT ==> QuietAt(field, grid, threshold, zs, e)
    ensures v == OUT ==> FarFrom(zs, ivs, e, marginStrict, 0.0)
    ensures v == OUTSIDE_DOMAIN <==> e.zmin < zmin || zmax < e.zmax || rmax < e.rmax
    ensures zmin <= e.zmin && e.zmax <= zmax && e.rmax <= rmax ==>
              (FarFrom(zs, ivs, e, marginStrict, EPS) || QuietInside(field, grid, threshold, e.rmin, marginStrict) ==>
                 v == OUT)
  {
    hide Local, Outer, FarFrom, QuietAt, QuietInside, VerdictOf, Scanned, RefinedStep, WellFormed, Increasing;
    assert Square(0.05) <= FAR_TEST;
    hide Square;
    var s;
    s, zs, ivs := BuildSupport(field, grid, threshold, zmin, zmax, rmax, marginStrict, elsewhere);
    v := Classify(false, s, e, scanned, threshold);
    JudgeMeans(s, zs, ivs, field, grid, threshold, e, scanned);
  }

  /** At the z of the slices and on the grid, the field in the extent is at most the threshold. */
  ghost predicate QuietAt(field: (real, real) -> real, grid: seq<real>, threshold: real, zs: seq<real>, e: Extent) {
    forall k, i :: 0 <= k < |zs| && 0 <= i < |grid| && InExtent(e, zs[k], grid[i]) ==>
      field(zs[k], grid[i]) <= threshold
  }

  lemma JudgeMeans(s: Support, zs: seq<real>, ivs: seq<seq<Interval>>, field: (real, real) -> real, grid: seq<real>,
                   threshold: real, e: Extent, scanned: real)
    requires |zs| == |ivs| && Local(s, zs, ivs) && Outer(s, field, grid, threshold, zs)
    requires Increasing(grid) && s.marginStrict > 0.0 && exists last :: Scanned(zs, ivs, field, grid, threshold, last)
    ensures var v := VerdictOf(false, s, e, scanned, threshold);
            && (v == OUT || v == OUT_TIGHT ==> QuietAt(field, grid, threshold, zs, e))
            && (v == OUT ==> FarFrom(zs, ivs, e, s.marginStrict, 0.0))
            && (v == OUTSIDE_DOMAIN <==> !InDomain(s, e))
            && (InDomain(s, e) && FarFrom(zs, ivs, e, s.marginStrict, EPS) ==> v == OUT)
            && (InDomain(s, e) && QuietInside(field, grid, threshold, e.rmin, s.marginStrict) ==> v == OUT)
  {
    hide Scanned, FarFrom, Clear, Local, Outer, Covered, Untouched, Shallow, Increasing, QuietInside, QuietAt, InDomain;
    var last :| Scanned(zs, ivs, field, grid, threshold, last);
    FarIsClear(s, zs, ivs, e, s.marginStrict);
    OutMeansQuiet(s, zs, field, grid, threshold, e);
    QuietInsideIsFar(zs, ivs, field, grid, threshold, last, e, s.marginStrict);
  }

  lemma QuietInsideIsFar(zs: seq<real>, ivs: seq<seq<Interval>>, field: (real, real) -> real, grid: seq<real>,
                         threshold: real, last: real, e: Extent, margin: real)
    requires Scanned(zs, ivs, field, grid, threshold, last) && Increasing(grid) && margin >= 0.0
    ensures QuietInside(field, grid, threshold, e.rmin, margin) ==> FarFrom(zs, ivs, e, margin, EPS)
  {
    assert |zs| == |ivs|;
    hide Scanned, FarFrom, Increasing, QuietFrom;
    if QuietInside(field, grid, threshold, e.rmin, margin) {
      var i :| 0 <= i < |grid| && QuietFrom(field, grid, threshold, i) && e.rmin >= grid[i] + 0.01 + EPS + margin;
      QuietIsFar(zs, ivs, field, grid, threshold, last, i, e, margin);
    }
  }

  lemma OutMeansQuiet(s: Support, zs: seq<real>, field: (real, real) -> real, grid: seq<real>, threshold: real,
                      e: Extent)
    requires Outer(s, field, grid, threshold, zs)
    ensures Clear(s, e, s.marginStrict) || Clear(s, e, s.marginTight) ==> QuietAt(field, grid, threshold, zs, e)
  {
    hide Supported, Square, Distance2;
  }

  ghost predicate QuietFrom(field: (real, real) -> real, grid: seq<real>, threshold: real, i: nat) {
    forall z: real, m :: i <= m < |grid| ==> field(z, grid[m]) <= threshold
  }

  /** From some grid radius inside r, by more than the margin, the field is quiet at every z. */
  ghost predicate QuietInside(field: (real, real) -> real, grid: seq<real>, threshold: real, r: real, margin: real) {
    exists i :: 0 <= i < |grid| && QuietFrom(field, grid, threshold, i) && r >= grid[i] + 0.01 + EPS + margin
  }
}
