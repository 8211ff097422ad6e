// The field-support model: bands in z carrying radial intervals, and the questions asked of it.
// Distances are compared through their squares.

module FieldSupport {

  datatype Interval = Interval(lo: real, hi: real)

  datatype Band = Band(zlo: real, zhi: real, iv: seq<Interval>)

  /** A placement's extent in the (z, r) half-plane. */
  datatype Extent = Extent(zmin: real, zmax: real, rmin: real, rmax: real)

  datatype Support = Support(bands: seq<Band>, edge: real, marginStrict: real, marginTight: real,
                             zmin: real, zmax: real, rmax: real)

  predicate Proper(e: Extent) { e.zmin <= e.zmax && e.rmin <= e.rmax }

  ghost predicate WellFormed(s: Support) {
    && s.edge >= 0.0 && s.marginTight > 0.0 && s.marginStrict > 0.0
    && forall b :: b in s.bands ==> b.zlo <= b.zhi && forall iv :: iv in b.iv ==> iv.lo <= iv.hi
  }

  function Max(a: real, b: real): real { if a >= b then a else b }

  function Min(a: real, b: real): real { if a <= b then a else b }

  function Times(a: real, b: real): real { a * b }

  function Square(x: real): real { Times(x, x) }

  // The few facts about products that are needed, one at a time.

  lemma TimesMonotone(a: real, b: real, c: real)
    requires a <= b && c >= 0.0
    ensures Times(a, c) <= Times(b, c)
  {}

  lemma TimesPositive(a: real, b: real)
    requires a > 0.0 && b > 0.0
    ensures Times(a, b) > 0.0
  {}

  lemma TimesZero(a: real)
    ensures Times(0.0, a) == 0.0
  {}

  lemma TimesSwap(a: real, b: real)
    ensures Times(a, b) == Times(b, a)
  {}

  lemma TimesMinus(a: real, b: real)
    ensures Times(-a, -b) == Times(a, b)
  {}

  // ---------------------------------------------------------------------------------------------
  // Separation.

  /** The gap between two ranges, 0 if they meet. */
  function Gap(alo: real, ahi: real, blo: real, bhi: real): real {
    Max(0.0, Max(alo - bhi, blo - ahi))
  }

  /** The square of the distance between the extent and one expanded interval of one band. */
  function BoxGap(e: Extent, b: Band, iv: Interval, edge: real): real {
    Square(Gap(b.zlo, b.zhi, e.zmin, e.zmax)) + Square(Gap(iv.lo - edge, iv.hi + edge, e.rmin, e.rmax))
  }

  const FAR := 1000000000000000000000000000000000000000000000000000000000000.0

  const FAR_TEST := 10000000000000000000000000000000000000000000000000000000000.0

  function NearestInBand(e: Extent, b: Band, n: nat, edge: real, best: real): real
    requires n <= |b.iv|
  {
    if n == 0 then best else Min(NearestInBand(e, b, n - 1, edge, best), BoxGap(e, b, b.iv[n - 1], edge))
  }

  function Nearest(e: Extent, bands: seq<Band>, n: nat, edge: real): real
    requires n <= |bands|
  {
    if n == 0 then FAR else NearestInBand(e, bands[n - 1], |bands[n - 1].iv|, edge, Nearest(e, bands, n - 1, edge))
  }

  lemma {:induction false} NearestInBandIs(e: Extent, b: Band, n: nat, edge: real, best: real)
    requires n <= |b.iv|
    ensures var r := NearestInBand(e, b, n, edge, best);
            && r <= best && (forall k :: 0 <= k < n ==> r <= BoxGap(e, b, b.iv[k], edge))
            && (r == best || exists k :: 0 <= k < n && r == BoxGap(e, b, b.iv[k], edge))
  {
    if n > 0 {
      NearestInBandIs(e, b, n - 1, edge, best);
    }
  }

  ghost predicate InModel(bands: seq<Band>, n: nat, b: Band, iv: Interval)
    requires n <= |bands|
  {
    b in bands[..n] && iv in b.iv
  }

  lemma {:induction false} NearestIs(e: Extent, bands: seq<Band>, n: nat, edge: real)
    requires n <= |bands|
    ensures var r := Nearest(e, bands, n, edge);
            && r <= FAR && (forall b, iv :: InModel(bands, n, b, iv) ==> r <= BoxGap(e, b, iv, edge))
            && (r == FAR || exists b, iv :: InModel(bands, n, b, iv) && r == BoxGap(e, b, iv, edge))
  {
    if n > 0 {
      NearestIs(e, bands, n - 1, edge);
      var last, before := bands[n - 1], Nearest(e, bands, n - 1, edge);
      NearestInBandIs(e, last, |last.iv|, edge, before);
      assert bands[..n] == bands[..n - 1] + [last];
      var r := Nearest(e, bands, n, edge);
      forall b, iv | InModel(bands, n, b, iv)
        ensures r <= BoxGap(e, b, iv, edge)
      {
        if b == last {
          var k :| 0 <= k < |last.iv| && last.iv[k] == iv;
        } else {
          assert InModel(bands, n - 1, b, iv);
        }
      }
      if r != before {
        var k :| 0 <= k < |last.iv| && r == BoxGap(e, last, last.iv[k], edge);
        assert InModel(bands, n, last, last.iv[k]);
      } else if r != FAR {
        var b, iv :| InModel(bands, n - 1, b, iv) && r == BoxGap(e, b, iv, edge);
        assert InModel(bands, n, b, iv);
      }
    }
  }

  /** The square of the separation, with the early exit of the source. */
  method Separation(s: Support, e: Extent) returns (d: real)
    ensures d == if Nearest(e, s.bands, |s.bands|, s.edge) > FAR_TEST then FAR
            else Nearest(e, s.bands, |s.bands|, s.edge)
  {
    hide Square, Times;
    var best := FAR;
    for i := 0 to |s.bands|
      invariant best == Nearest(e, s.bands, i, s.edge) && best > 0.0
    {
      var band := s.bands[i];
      var dz := Max(0.0, Max(band.zlo - e.zmax, e.zmin - band.zhi));
      ghost var before := best;
      for j := 0 to |band.iv|
        invariant best == NearestInBand(e, band, j, s.edge, before) && best > 0.0
      {
        var iv := band.iv[j];
        var lo, hi := iv.lo - s.edge, iv.hi + s.edge;
        var dr := Max(0.0, Max(lo - e.rmax, e.rmin - hi));
        best := Min(best, Square(dz) + Square(dr));
        if best <= 0.0 {
          ZeroIsLeast(e, s.bands, i, j + 1, s.edge);
          return 0.0;
        }
      }
    }
    d := if best > FAR_TEST then FAR else best;
  }

  lemma SquareNonNegative(x: real)
    ensures Square(x) >= 0.0
  {
    hide Times;
    TimesZero(x);
    TimesZero(-x);
    TimesMinus(x, x);
    if x >= 0.0 { TimesMonotone(0.0, x, x); } else { TimesMonotone(0.0, -x, -x); }
  }

  lemma BoxGapNonNegative(e: Extent, b: Band, iv: Interval, edge: real)
    ensures BoxGap(e, b, iv, edge) >= 0.0
  {
    hide Square, Times;
    SquareNonNegative(Gap(b.zlo, b.zhi, e.zmin, e.zmax));
    SquareNonNegative(Gap(iv.lo - edge, iv.hi + edge, e.rmin, e.rmax));
  }

  // Nothing is nearer than nothing at all.
  lemma ZeroIsLeast(e: Extent, bands: seq<Band>, i: nat, j: nat, edge: real)
    requires i < |bands| && j <= |bands[i].iv|
    requires NearestInBand(e, bands[i], j, edge, Nearest(e, bands, i, edge)) <= 0.0
    ensures Nearest(e, bands, |bands|, edge) == 0.0
  {
    NearestIs(e, bands, |bands|, edge);
    var r := Nearest(e, bands, |bands|, edge);
    if r != FAR {
      var b, iv :| InModel(bands, |bands|, b, iv) && r == BoxGap(e, b, iv, edge);
      BoxGapNonNegative(e, b, iv, edge);
    }
    NearestInBandIs(e, bands[i], j, edge, Nearest(e, bands, i, edge));
    NearestIs(e, bands, i, edge);
    if NearestInBand(e, bands[i], j, edge, Nearest(e, bands, i, edge)) == Nearest(e, bands, i, edge) {
      var b, iv :| InModel(bands, i, b, iv) && Nearest(e, bands, i, edge) == BoxGap(e, b, iv, edge);
      assert InModel(bands, |bands|, b, iv);
    } else {
      var k :| 0 <= k < j && NearestInBand(e, bands[i], j, edge, Nearest(e, bands, i, edge))
        == BoxGap(e, bands[i], bands[i].iv[k], edge);
      assert InModel(bands, |bands|, bands[i], bands[i].iv[k]);
    }
  }

  // ---------------------------------------------------------------------------------------------
  // What the separation means, point by point.

  ghost predicate InExtent(e: Extent, z: real, r: real) { e.zmin <= z <= e.zmax && e.rmin <= r <= e.rmax }

  /** In the expanded support: in a band, and within the edge uncertainty of one of its intervals. */
  ghost predicate InBox(b: Band, iv: Interval, edge: real, z: real, r: real) {
    b.zlo <= z <= b.zhi && iv.lo - edge <= r <= iv.hi + edge
  }

  ghost predicate Supported(s: Support, z: real, r: real) {
    exists b, iv :: InModel(s.bands, |s.bands|, b, iv) && InBox(b, iv, s.edge, z, r)
  }

  function Distance2(z: real, r: real, z': real, r': real): real { Square(z - z') + Square(r - r') }

  // A point of each range at exactly the distance of the gap, and none nearer.
  lemma GapAttained(alo: real, ahi: real, blo: real, bhi: real) returns (a: real, b: real)
    requires alo <= ahi && blo <= bhi
    ensures alo <= a <= ahi && blo <= b <= bhi && Square(b - a) == Square(Gap(alo, ahi, blo, bhi))
  {
    if alo > bhi {
      a, b := alo, bhi;
      OppositeSquares(a, b);
    } else if blo > ahi {
      a, b := ahi, blo;
    } else {
      a := Max(alo, blo);
      b := a;
    }
  }

  lemma OppositeSquares(a: real, b: real)
    ensures Square(b - a) == Square(a - b)
  {
    hide Times;
    assert b - a == -(a - b);
    TimesMinus(a - b, a - b);
  }

  lemma GapLeast(alo: real, ahi: real, blo: real, bhi: real, a: real, b: real)
    requires alo <= a <= ahi && blo <= b <= bhi
    ensures Square(Gap(alo, ahi, blo, bhi)) <= Square(b - a)
  {
    hide Square;
    var g := Gap(alo, ahi, blo, bhi);
    var d := if b >= a then b - a else a - b;
    assert 0.0 <= g <= d;
    SquareMonotone(g, d);
    OppositeSquares(a, b);
  }

  lemma SquareMonotone(x: real, y: real)
    requires 0.0 <= x <= y
    ensures Square(x) <= Square(y)
  {
    hide Times;
    TimesMonotone(x, y, x);
    TimesMonotone(x, y, y);
    TimesSwap(x, y);
  }

  /** No point of the extent is nearer to a supported point than the separation. */
  lemma SeparationIsLower(s: Support, e: Extent, z: real, r: real, z': real, r': real)
    requires InExtent(e, z, r) && Supported(s, z', r')
    ensures Nearest(e, s.bands, |s.bands|, s.edge) <= Distance2(z, r, z', r')
  {
    var b, iv :| InModel(s.bands, |s.bands|, b, iv) && InBox(b, iv, s.edge, z', r');
    NearestIs(e, s.bands, |s.bands|, s.edge);
    GapLeast(b.zlo, b.zhi, e.zmin, e.zmax, z', z);
    GapLeast(iv.lo - s.edge, iv.hi + s.edge, e.rmin, e.rmax, r', r);
  }

  /** And some point of the extent is exactly that near to some supported point. */
  lemma SeparationIsAttained(s: Support, e: Extent) returns (z: real, r: real, z': real, r': real)
    requires WellFormed(s) && Proper(e) && Nearest(e, s.bands, |s.bands|, s.edge) < FAR
    ensures InExtent(e, z, r) && Supported(s, z', r')
    ensures Distance2(z, r, z', r') == Nearest(e, s.bands, |s.bands|, s.edge)
  {
    NearestIs(e, s.bands, |s.bands|, s.edge);
    var b, iv :| InModel(s.bands, |s.bands|, b, iv)
      && Nearest(e, s.bands, |s.bands|, s.edge) == BoxGap(e, b, iv, s.edge);
    assert b in s.bands;
    z', z := GapAttained(b.zlo, b.zhi, e.zmin, e.zmax);
    r', r := GapAttained(iv.lo - s.edge, iv.hi + s.edge, e.rmin, e.rmax);
    assert InBox(b, iv, s.edge, z', r');
  }

  /** The separation vanishes exactly when some point of the extent is supported. */
  lemma SeparationZero(s: Support, e: Extent)
    requires WellFormed(s) && Proper(e)
    ensures Nearest(e, s.bands, |s.bands|, s.edge) <= 0.0 <==> exists z, r :: InExtent(e, z, r) && Supported(s, z, r)
  {
    if Nearest(e, s.bands, |s.bands|, s.edge) <= 0.0 {
      var z, r, z', r' := SeparationIsAttained(s, e);
      SquaresVanish(z - z', r - r');
      assert InExtent(e, z, r) && Supported(s, z, r);
    }
    if exists z, r :: InExtent(e, z, r) && Supported(s, z, r) {
      var z, r :| InExtent(e, z, r) && Supported(s, z, r);
      SeparationIsLower(s, e, z, r, z, r);
    }
  }

  lemma SquaresVanish(x: real, y: real)
    requires Square(x) + Square(y) <= 0.0
    ensures x == 0.0 && y == 0.0
  {
    hide Square;
    SquareNonNegative(x);
    SquareNonNegative(y);
    if x != 0.0 { SquarePositive(x); }
    if y != 0.0 { SquarePositive(y); }
  }

  lemma SquarePositive(x: real)
    requires x != 0.0
    ensures Square(x) > 0.0
  {
    hide Times;
    if x > 0.0 {
      TimesPositive(x, x);
    } else {
      TimesMinus(x, x);
      TimesPositive(-x, -x);
    }
  }

  // ---------------------------------------------------------------------------------------------
  // Sorting by the lower edge.

  ghost predicate SortedByLo(a: seq<Interval>) {
    forall i, j :: 0 <= i < j < |a| ==> a[i].lo <= a[j].lo
  }

  function Place(r: seq<Interval>, k: nat, x: Interval): seq<Interval>
    requires k <= |r|
  {
    r[..k] + [x] + r[k..]
  }

  lemma PlaceAt(r: seq<Interval>, k: nat, x: Interval, i: nat)
    requires k <= |r| && i <= |r|
    ensures |Place(r, k, x)| == |r| + 1
    ensures Place(r, k, x)[i] == if i < k then r[i] else if i == k then x else r[i - 1]
  {}

  lemma PlacePermutes(r: seq<Interval>, k: nat, x: Interval)
    requires k <= |r|
    ensures multiset(Place(r, k, x)) == multiset(r) + multiset{x}
  {
    assert r == r[..k] + r[k..];
  }

  lemma PlaceSorted(r: seq<Interval>, k: nat, x: Interval)
    requires k <= |r| && SortedByLo(r)
    requires (k > 0 ==> r[k - 1].lo <= x.lo) && (k < |r| ==> x.lo <= r[k].lo)
    ensures SortedByLo(Place(r, k, x))
  {
    PlaceAt(r, k, x, 0);
    hide Place;
    forall i, j | 0 <= i < j < |Place(r, k, x)|
      ensures Place(r, k, x)[i].lo <= Place(r, k, x)[j].lo
    {
      PlaceAt(r, k, x, i);
      PlaceAt(r, k, x, j);
    }
  }

  /** Some sorted arrangement; equal lower edges may come in any order. */
  method SortByLo(a: seq<Interval>) returns (r: seq<Interval>)
    ensures SortedByLo(r) && multiset(r) == multiset(a)
  {
    r := [];
    hide Place;
    for i := 0 to |a|
      invariant SortedByLo(r) && multiset(r) == multiset(a[..i])
    {
      var k := FindPlace(r, a[i]);
      hide SortedByLo;
      PlaceSorted(r, k, a[i]);
      PlacePermutes(r, k, a[i]);
      assert a[..i + 1] == a[..i] + [a[i]];
      r := Place(r, k, a[i]);
    }
    assert a[..|a|] == a;
  }

  method FindPlace(r: seq<Interval>, x: Interval) returns (k: nat)
    ensures k <= |r| && (k > 0 ==> r[k - 1].lo <= x.lo) && (k < |r| ==> x.lo <= r[k].lo)
  {
    k := |r|;
    while k > 0 && r[k - 1].lo > x.lo
      invariant k <= |r| && (k < |r| ==> r[k].lo > x.lo)
    {
      k := k - 1;
    }
  }

  // ---------------------------------------------------------------------------------------------
  // Coverage.

  const EPS := 0.000000001

  /** One of the band's intervals holds the whole radial extent, within the edge uncertainty. */
  predicate RadiallyCovers(b: Band, e: Extent, edge: real) {
    exists k :: 0 <= k < |b.iv| && b.iv[k].lo - edge <= e.rmin && b.iv[k].hi + edge >= e.rmax
  }

  predicate IsCovering(b: Band, e: Extent, edge: real) {
    !(b.zhi < e.zmin || b.zlo > e.zmax) && RadiallyCovers(b, e, edge)
  }

  ghost predicate HasSegment(segments: seq<Interval>, b: Band) { Interval(b.zlo, b.zhi) in segments }

  /** Some segment starts no later than 1e-9 past x and goes on beyond x. */
  ghost predicate Continues(segments: seq<Interval>, x: real) {
    exists k :: 0 <= k < |segments| && segments[k].lo <= x + EPS && x < segments[k].hi
  }

  /** The walk along the sorted segments. It gets to the end exactly when none of the places on the way is
      one where every segment that goes on starts too late. */
  method Walk(segments: seq<Interval>, zmin: real, zmax: real) returns (covered: bool)
    requires SortedByLo(segments) && forall k :: 0 <= k < |segments| ==> segments[k].lo <= zmax
    ensures covered <==> forall x :: zmin <= x < zmax ==> Continues(segments, x)
  {
    var frontier := zmin;
    for k := 0 to |segments|
      invariant frontier >= zmin && (frontier < zmax || zmin >= zmax)
      invariant forall x :: zmin <= x < frontier ==> Continues(segments, x)
      invariant forall j :: 0 <= j < k ==> segments[j].hi <= frontier
    {
      if segments[k].lo > frontier + EPS {
        assert !Continues(segments, frontier);
        return false;
      }
      ghost var before := frontier;
      frontier := Max(frontier, segments[k].hi);
      forall x | before <= x < frontier
        ensures Continues(segments, x)
      {
        assert segments[k].lo <= x + EPS && x < segments[k].hi;
      }
      if frontier >= zmax {
        return true;
      }
    }
    covered := frontier >= zmax;
    assert !covered ==> !Continues(segments, frontier);
  }

  ghost predicate NearBand(s: Support, e: Extent, z: real) {
    exists b :: b in s.bands && RadiallyCovers(b, e, s.edge) && b.zlo - EPS <= z <= b.zhi
  }

  ghost predicate InBand(s: Support, e: Extent, z: real) {
    exists b :: b in s.bands && RadiallyCovers(b, e, s.edge) && b.zlo <= z <= b.zhi
  }

  ghost predicate ContinuesBand(s: Support, e: Extent, x: real) {
    exists b :: b in s.bands && IsCovering(b, e, s.edge) && b.zlo <= x + EPS && x < b.zhi
  }

  /** What the source calls covered: from every z of the extent but its last, a covering band goes on. */
  ghost predicate Covered(s: Support, e: Extent) {
    forall x :: e.zmin <= x < e.zmax ==> ContinuesBand(s, e, x)
  }

  method CoveredBySupport(s: Support, e: Extent) returns (covered: bool)
    ensures covered <==> Covered(s, e)
  {
    var covering: seq<Interval> := [];
    for i := 0 to |s.bands|
      invariant forall b :: b in s.bands[..i] && IsCovering(b, e, s.edge) ==> HasSegment(covering, b)
      invariant forall c :: c in covering ==> SegmentOf(s, e, c)
    {
      var band := s.bands[i];
      assert s.bands[..i + 1] == s.bands[..i] + [band];
      if !(band.zhi < e.zmin || band.zlo > e.zmax) {
        for j := 0 to |band.iv|
          invariant forall k :: 0 <= k < j ==> !(band.iv[k].lo - s.edge <= e.rmin && band.iv[k].hi + s.edge >= e.rmax)
          invariant forall b :: b in s.bands[..i] && IsCovering(b, e, s.edge) ==> HasSegment(covering, b)
          invariant forall c :: c in covering ==> SegmentOf(s, e, c)
        {
          if band.iv[j].lo - s.edge <= e.rmin && band.iv[j].hi + s.edge >= e.rmax {
            assert RadiallyCovers(band, e, s.edge);
            covering := covering + [Interval(band.zlo, band.zhi)];
            break;
          }
        }
      }
    }
    assert s.bands[..|s.bands|] == s.bands;
    ghost var unsorted := covering;
    covering := SortByLo(covering);
    SameSegments(unsorted, covering);
    forall k | 0 <= k < |covering|
      ensures covering[k].lo <= e.zmax
    {
      assert SegmentOf(s, e, covering[k]);
    }
    covered := Walk(covering, e.zmin, e.zmax);
    CoverageMeans(s, e, covering);
  }

  ghost predicate SegmentOf(s: Support, e: Extent, c: Interval) {
    exists b :: b in s.bands && IsCovering(b, e, s.edge) && c == Interval(b.zlo, b.zhi)
  }

  lemma SameSegments(a: seq<Interval>, b: seq<Interval>)
    requires multiset(a) == multiset(b)
    ensures forall c :: c in a <==> c in b
  {
    forall c
      ensures c in a <==> c in b
    {
      assert c in a <==> c in multiset(a);
      assert c in b <==> c in multiset(b);
    }
  }

  lemma CoverageMeans(s: Support, e: Extent, covering: seq<Interval>)
    requires forall b :: b in s.bands && IsCovering(b, e, s.edge) ==> HasSegment(covering, b)
    requires forall c :: c in covering ==> SegmentOf(s, e, c)
    ensures forall x :: Continues(covering, x) <==> ContinuesBand(s, e, x)
  {
    forall x
      ensures Continues(covering, x) <==> ContinuesBand(s, e, x)
    {
      if Continues(covering, x) {
        var k :| 0 <= k < |covering| && covering[k].lo <= x + EPS && x < covering[k].hi;
        assert SegmentOf(s, e, covering[k]);
      }
      if ContinuesBand(s, e, x) {
        var b :| b in s.bands && IsCovering(b, e, s.edge) && b.zlo <= x + EPS && x < b.zhi;
        assert HasSegment(covering, b);
        var k :| 0 <= k < |covering| && covering[k] == Interval(b.zlo, b.zhi);
      }
    }
  }

  /** Every z of the extent is within 1e-9 of a band that holds the extent radially. */
  ghost predicate Everywhere(s: Support, e: Extent) {
    forall z :: e.zmin <= z <= e.zmax ==> NearBand(s, e, z)
  }

  /** Covered means so for an extent of some length, and an extent inside the bands is covered. */
  lemma CoveredMeans(s: Support, e: Extent)
    ensures Covered(s, e) && e.zmin < e.zmax ==> Everywhere(s, e)
    ensures (forall z :: e.zmin <= z <= e.zmax ==> InBand(s, e, z)) ==> Covered(s, e)
  {
    if Covered(s, e) && e.zmin < e.zmax {
      forall z | e.zmin <= z <= e.zmax
        ensures NearBand(s, e, z)
      {
        // the last z is near whatever band goes on from the last band edge before it
        var x := if z < e.zmax then z else LastEdge(s.bands, e.zmin, e.zmax);
        assert ContinuesBand(s, e, x);
      }
    }
    if forall z :: e.zmin <= z <= e.zmax ==> InBand(s, e, z) {
      forall x | e.zmin <= x < e.zmax
        ensures ContinuesBand(s, e, x)
      {
        assert InBand(s, e, Min(x + EPS, e.zmax));
      }
    }
  }

  /** At a z in a band that holds the extent radially, every radius of the extent is supported. */
  lemma HeldRadially(s: Support, e: Extent, z: real, r: real)
    requires InBand(s, e, z) && e.rmin <= r <= e.rmax
    ensures Supported(s, z, r)
  {
    var b :| b in s.bands && RadiallyCovers(b, e, s.edge) && b.zlo <= z <= b.zhi;
    var k :| 0 <= k < |b.iv| && b.iv[k].lo - s.edge <= e.rmin && b.iv[k].hi + s.edge >= e.rmax;
    assert s.bands[..|s.bands|] == s.bands;
    assert InModel(s.bands, |s.bands|, b, b.iv[k]) && InBox(b, b.iv[k], s.edge, z, r);
  }

  /** No band ends between this and zmax. */
  ghost function LastEdge(bands: seq<Band>, zmin: real, zmax: real): (x: real)
    requires zmin < zmax
    ensures zmin <= x < zmax && forall b :: b in bands && x < b.zhi ==> zmax <= b.zhi
  {
    if bands == [] then zmin
    else
      var last, x := bands[|bands| - 1].zhi, LastEdge(bands[..|bands| - 1], zmin, zmax);
      if last < zmax then Max(x, last) else x
  }

  // ---------------------------------------------------------------------------------------------
  // Penetration.

  /** How deeply the extent reaches into one expanded interval of one band, 0 if they do not meet. */
  function Depth(e: Extent, b: Band, iv: Interval, edge: real): real {
    if b.zlo > e.zmax || b.zhi < e.zmin || iv.lo - edge > e.rmax || iv.hi + edge < e.rmin then 0.0
    else Max(0.0, Min(iv.hi + edge - e.rmin, e.rmax - (iv.lo - edge)))
  }

  /** The extent and the expanded interval have a point in common. */
  predicate Meets(e: Extent, b: Band, iv: Interval, edge: real) {
    b.zlo <= e.zmax && e.zmin <= b.zhi && iv.lo - edge <= e.rmax && e.rmin <= iv.hi + edge
  }

  /** Shifted radially by d, the extent at most touches the expanded interval. */
  ghost predicate AtMostTouches(e: Extent, d: real, iv: Interval, edge: real) {
    e.rmin + d >= iv.hi + edge || e.rmax + d <= iv.lo - edge
  }

  /** Some radial shift by at most m, inward or outward, gets the extent out of the expanded interval. */
  ghost predicate CanClear(e: Extent, iv: Interval, edge: real, m: real) {
    exists d :: -m <= d <= m && AtMostTouches(e, d, iv, edge)
  }

  /** The depth is the least such shift. */
  lemma DepthIsLeastShift(e: Extent, b: Band, iv: Interval, edge: real, m: real)
    requires Meets(e, b, iv, edge)
    ensures CanClear(e, iv, edge, m) <==> Depth(e, b, iv, edge) <= m
  {
    var out, back := iv.hi + edge - e.rmin, e.rmax - (iv.lo - edge);
    if Depth(e, b, iv, edge) <= m {
      assert AtMostTouches(e, if out <= back then out else -back, iv, edge);
    }
  }

  /** A radial shift by at most m gets the extent out of any one of the expanded intervals it meets. */
  ghost predicate ClearsAll(s: Support, e: Extent, m: real) {
    forall b, iv :: InModel(s.bands, |s.bands|, b, iv) && Meets(e, b, iv, s.edge) ==> CanClear(e, iv, s.edge, m)
  }

  /** The greatest depth over the support: a radial shift by so much gets the extent out of any one of the
      expanded intervals it meets, and for one of them no smaller shift does. */
  method Penetration(s: Support, e: Extent) returns (worst: real)
    ensures worst >= 0.0
    ensures ClearsAll(s, e, worst)
    ensures worst > 0.0 ==>
              exists b, iv :: InModel(s.bands, |s.bands|, b, iv) && Meets(e, b, iv, s.edge)
                              && forall m :: m < worst ==> !CanClear(e, iv, s.edge, m)
  {
    worst := 0.0;
    for i := 0 to |s.bands|
      invariant DeepestUpTo(s, e, i, worst)
    {
      worst := DeepestInBand(s, e, i, worst);
    }
    assert s.bands[..|s.bands|] == s.bands;
    DeepestMeans(s, e, worst);
  }

  lemma DeepestMeans(s: Support, e: Extent, worst: real)
    requires DeepestUpTo(s, e, |s.bands|, worst)
    ensures ClearsAll(s, e, worst)
    ensures worst > 0.0 ==>
              exists b, iv :: InModel(s.bands, |s.bands|, b, iv) && Meets(e, b, iv, s.edge)
                              && forall m :: m < worst ==> !CanClear(e, iv, s.edge, m)
  {
    forall b, iv | InModel(s.bands, |s.bands|, b, iv) && Meets(e, b, iv, s.edge)
      ensures CanClear(e, iv, s.edge, worst)
    {
      DepthIsLeastShift(e, b, iv, s.edge, worst);
    }
    if worst > 0.0 {
      var b, iv :| InModel(s.bands, |s.bands|, b, iv) && Depth(e, b, iv, s.edge) == worst;
      assert Meets(e, b, iv, s.edge);
      forall m | m < worst
        ensures !CanClear(e, iv, s.edge, m)
      {
        DepthIsLeastShift(e, b, iv, s.edge, m);
      }
    }
  }

  ghost predicate DeepestUpTo(s: Support, e: Extent, n: nat, worst: real)
    requires n <= |s.bands|
  {
    && worst >= 0.0
    && (forall b, iv :: InModel(s.bands, n, b, iv) ==> Depth(e, b, iv, s.edge) <= worst)
    && (worst > 0.0 ==> exists b, iv :: InModel(s.bands, n, b, iv) && Depth(e, b, iv, s.edge) == worst)
  }

  method DeepestInBand(s: Support, e: Extent, i: nat, before: real) returns (worst: real)
    requires i < |s.bands| && DeepestUpTo(s, e, i, before)
    ensures DeepestUpTo(s, e, i + 1, worst)
  {
    var band := s.bands[i];
    worst := before;
    if !(band.zlo > e.zmax || band.zhi < e.zmin) {
      for j := 0 to |band.iv|
        invariant worst >= before && forall k :: 0 <= k < j ==> Depth(e, band, band.iv[k], s.edge) <= worst
        invariant worst == before || exists k :: 0 <= k < j && Depth(e, band, band.iv[k], s.edge) == worst
      {
        var lo, hi := band.iv[j].lo - s.edge, band.iv[j].hi + s.edge;
        if !(lo > e.rmax || hi < e.rmin) {
          worst := Max(worst, Min(hi - e.rmin, e.rmax - lo));
        }
      }
    }
    DeepestNext(s, e, i, before, worst);
  }

  lemma DeepestNext(s: Support, e: Extent, i: nat, before: real, worst: real)
    requires i < |s.bands| && DeepestUpTo(s, e, i, before) && worst >= before
    requires forall k :: 0 <= k < |s.bands[i].iv| ==> Depth(e, s.bands[i], s.bands[i].iv[k], s.edge) <= worst
    requires worst == before
             || exists k :: 0 <= k < |s.bands[i].iv| && Depth(e, s.bands[i], s.bands[i].iv[k], s.edge) == worst
    ensures DeepestUpTo(s, e, i + 1, worst)
  {
    var band := s.bands[i];
    assert s.bands[..i + 1] == s.bands[..i] + [band];
    forall b, iv | InModel(s.bands, i + 1, b, iv)
      ensures Depth(e, b, iv, s.edge) <= worst
    {
      if b == band {
        var k :| 0 <= k < |band.iv| && band.iv[k] == iv;
      } else {
        assert InModel(s.bands, i, b, iv);
      }
    }
    if worst > before {
      var k :| 0 <= k < |band.iv| && Depth(e, band, band.iv[k], s.edge) == worst;
      assert InModel(s.bands, i + 1, band, band.iv[k]);
    } else if worst > 0.0 {
      var b, iv :| InModel(s.bands, i, b, iv) && Depth(e, b, iv, s.edge) == worst;
      assert InModel(s.bands, i + 1, b, iv);
    }
  }

  /** An extent that is clear of the support penetrates it nowhere. */
  lemma ClearMeansNoDepth(s: Support, e: Extent, b: Band, iv: Interval)
    requires Nearest(e, s.bands, |s.bands|, s.edge) > 0.0 && InModel(s.bands, |s.bands|, b, iv)
    ensures Depth(e, b, iv, s.edge) == 0.0
  {
    NearestIs(e, s.bands, |s.bands|, s.edge);
    DepthClosesGap(e, b, iv, s.edge);
  }

  lemma DepthClosesGap(e: Extent, b: Band, iv: Interval, edge: real)
    ensures Depth(e, b, iv, edge) >= 0.0
    ensures Depth(e, b, iv, edge) > 0.0 ==> BoxGap(e, b, iv, edge) == 0.0
  {
    TimesZero(0.0);
  }

  // ---------------------------------------------------------------------------------------------
  // The verdict.

  datatype Verdict = ASSEMBLY | OUTSIDE_DOMAIN | OUT | OUT_TIGHT | IN_COVERED | IN | OUT_BOUNDARY | UNKNOWN

  predicate InDomain(s: Support, e: Extent) { e.zmin >= s.zmin && e.zmax <= s.zmax && e.rmax <= s.rmax }

  /** A support whose margins are below the early exit of the separation. */
  ghost predicate Usable(s: Support) {
    WellFormed(s) && Square(s.marginStrict) <= FAR_TEST && Square(s.marginTight) <= FAR_TEST
  }

  /** No point of the extent is supported, and none is nearer to the support than the margin. */
  ghost predicate Clear(s: Support, e: Extent, margin: real) {
    && Untouched(s, e)
    && (forall z, r, z', r' :: InExtent(e, z, r) && Supported(s, z', r') ==> Square(margin) <= Distance2(z, r, z', r'))
  }

  ghost predicate Untouched(s: Support, e: Extent) {
    forall z, r :: InExtent(e, z, r) ==> !Supported(s, z, r)
  }

  /** The extent reaches into no interval by more than the model can resolve: a radial shift by twice the
      edge uncertainty gets it out of any one of them. */
  ghost predicate Shallow(s: Support, e: Extent) { ClearsAll(s, e, 2.0 * s.edge) }

  /** The verdict in terms of points: what is supported, how near, and whether bands go on throughout. */
  ghost function VerdictOf(assembly: bool, s: Support, e: Extent, scanned: real, threshold: real): Verdict {
    if assembly then ASSEMBLY
    else if !InDomain(s, e) then OUTSIDE_DOMAIN
    else if Clear(s, e, s.marginStrict) then OUT
    else if Clear(s, e, s.marginTight) then OUT_TIGHT
    else if Covered(s, e) then IN_COVERED
    else if scanned > threshold then IN
    else if Untouched(s, e) || Shallow(s, e) then OUT_BOUNDARY
    else UNKNOWN
  }

  /** The order of the tests; scanned is the greatest field the disproof scan finds. */
  method Classify(assembly: bool, s: Support, e: Extent, scanned: real, threshold: real) returns (v: Verdict)
    requires Usable(s) && Proper(e)
    ensures v == VerdictOf(assembly, s, e, scanned, threshold)
  {
    if assembly {
      return ASSEMBLY;
    }
    if !InDomain(s, e) {
      return OUTSIDE_DOMAIN;
    }
    var separation := Separation(s, e);
    ClearAtDistance(s, e, separation, s.marginStrict);
    ClearAtDistance(s, e, separation, s.marginTight);
    UntouchedAtDistance(s, e, separation);
    hide Square, Nearest, Covered, Clear, Untouched, Depth, CanClear, Shallow, ClearsAll;
    if separation >= Square(s.marginStrict) {
      return OUT;
    }
    if separation >= Square(s.marginTight) {
      return OUT_TIGHT;
    }
    var penetration := Penetration(s, e);
    ShallowAtDepth(s, e, penetration);
    var covered := CoveredBySupport(s, e);
    if covered {
      return IN_COVERED;
    }
    if scanned > threshold {
      v := IN;
    } else if separation > 0.0 || penetration <= 2.0 * s.edge {
      v := OUT_BOUNDARY;
    } else {
      v := UNKNOWN;
    }
  }

  // The separation compared with a margin, or with zero, as a statement about points.

  lemma ClearAtDistance(s: Support, e: Extent, separation: real, margin: real)
    requires WellFormed(s) && Proper(e) && margin > 0.0 && Square(margin) <= FAR_TEST
    requires separation == if Nearest(e, s.bands, |s.bands|, s.edge) > FAR_TEST then FAR
             else Nearest(e, s.bands, |s.bands|, s.edge)
    ensures separation >= Square(margin) <==> Clear(s, e, margin)
  {
    SquarePositive(margin);
    NearestAtMostFar(s, e);
    hide Square, Times, Nearest, Supported, WellFormed, Distance2;
    if separation >= Square(margin) {
      SeparationZero(s, e);
      forall z, r, z', r' | InExtent(e, z, r) && Supported(s, z', r')
        ensures Square(margin) <= Distance2(z, r, z', r')
      {
        SeparationIsLower(s, e, z, r, z', r');
      }
    } else {
      var z, r, z', r' := SeparationIsAttained(s, e);
      assert Distance2(z, r, z', r') < Square(margin);
    }
  }

  lemma NearestAtMostFar(s: Support, e: Extent)
    ensures Nearest(e, s.bands, |s.bands|, s.edge) <= FAR
  {
    NearestIs(e, s.bands, |s.bands|, s.edge);
  }

  lemma ShallowAtDepth(s: Support, e: Extent, worst: real)
    requires s.edge >= 0.0
    requires ClearsAll(s, e, worst)
    requires worst > 0.0 ==>
               exists b, iv :: InModel(s.bands, |s.bands|, b, iv) && Meets(e, b, iv, s.edge)
                               && forall m :: m < worst ==> !CanClear(e, iv, s.edge, m)
    ensures worst <= 2.0 * s.edge <==> Shallow(s, e)
  {
    if worst <= 2.0 * s.edge {
      forall b, iv | InModel(s.bands, |s.bands|, b, iv) && Meets(e, b, iv, s.edge)
        ensures CanClear(e, iv, s.edge, 2.0 * s.edge)
      {
        DepthIsLeastShift(e, b, iv, s.edge, worst);
        DepthIsLeastShift(e, b, iv, s.edge, 2.0 * s.edge);
      }
    }
  }

  lemma UntouchedAtDistance(s: Support, e: Extent, separation: real)
    requires WellFormed(s) && Proper(e)
    requires separation == if Nearest(e, s.bands, |s.bands|, s.edge) > FAR_TEST then FAR
             else Nearest(e, s.bands, |s.bands|, s.edge)
    ensures separation > 0.0 <==> Untouched(s, e)
  {
    hide Nearest, Supported;
    SeparationZero(s, e);
  }

  // ---------------------------------------------------------------------------------------------
  // Extents of no length.

  /** However an extent of no length lies, there is a support of one band, a quarter of a millimetre away from it, for
      which it is called covered: nothing of it is supported and no band is near. */
  lemma FlatExtentMisjudged(e: Extent) returns (s: Support)
    requires Proper(e) && e.zmin == e.zmax
    ensures Usable(s) && Untouched(s, e) && !Everywhere(s, e)
    ensures forall scanned, threshold :: VerdictOf(false, s, e, scanned, threshold) == IN_COVERED
  {
    var b, iv := Band(e.zmin - 1.0, e.zmin + 1.0, [Interval(e.rmax + 0.035, e.rmax + 1.0)]),
      Interval(e.rmax + 0.035, e.rmax + 1.0);
    s := Support([b], 0.01, 5.0, 0.05, e.zmin, e.zmax, e.rmax);
    forall z, r | Supported(s, z, r)
      ensures r >= e.rmax + 0.025
    {
    }
    assert InModel(s.bands, 1, b, iv) && InBox(b, iv, s.edge, e.zmin, e.rmax + 0.025);
    assert InExtent(e, e.zmin, e.rmax) && Supported(s, e.zmin, e.rmax + 0.025);
    assert Distance2(e.zmin, e.rmax, e.zmin, e.rmax + 0.025) < Square(0.05);
    assert Distance2(e.zmin, e.rmax, e.zmin, e.rmax + 0.025) < Square(5.0);
    assert !RadiallyCovers(b, e, s.edge);
    assert !NearBand(s, e, e.zmin);
  }

  /** A verdict of coverage can be relied on, whatever the support, if and only if the extent has some
      length in z. */
  lemma InCoveredExactly(e: Extent)
    requires Proper(e)
    ensures (forall s, scanned, threshold ::
               Usable(s) && VerdictOf(false, s, e, scanned, threshold) == IN_COVERED ==> Everywhere(s, e))
       <==> e.zmin < e.zmax
  {
    if e.zmin < e.zmax {
      forall s, scanned, threshold | Usable(s) && VerdictOf(false, s, e, scanned, threshold) == IN_COVERED
        ensures Everywhere(s, e)
      {
        CoveredMeans(s, e);
      }
    } else {
      var s := FlatExtentMisjudged(e);
      assert VerdictOf(false, s, e, 0.0, 0.0) == IN_COVERED;
    }
  }
}
